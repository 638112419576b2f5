/**
 * The fixed configuration of the rewriter in scripts/replace_hardcoded_colors.py:
 * the table from normalised colour literals to `AppColors` names, and the
 * suffixes of the names the palette is assumed to define already.
 */
module Palette {
  import opened Text

  /** The class that holds the palette's colours. */
  const ClassName: string := "AppColors"

  /** The eleven palette entries the table refers to. */
  datatype Swatch =
    | Primary
    | Error
    | Success
    | Warning
    | ButtonDark
    | Secondary
    | Background
    | SurfaceTint
    | CoralAccent
    | TextPrimary
    | InputBorder

  /** The member name of a swatch inside `AppColors`. */
  function Suffix(s: Swatch): string {
    match s
    case Primary => "primary"
    case Error => "error"
    case Success => "success"
    case Warning => "warning"
    case ButtonDark => "buttonDark"
    case Secondary => "secondary"
    case Background => "background"
    case SurfaceTint => "surfaceTint"
    case CoralAccent => "coralAccent"
    case TextPrimary => "textPrimary"
    case InputBorder => "inputBorder"
  }

  /** `AppColors.<suffix>`. */
  function Qualified(suffix: string): string {
    ClassName + "." + suffix
  }

  /** The name the rewriter writes for a swatch, such as `AppColors.primary`. */
  function Name(s: Swatch): string {
    Qualified(Suffix(s))
  }

  /** `COLOR_MAP`, entries in source order, with each name given as its swatch. Two keys
      are listed twice with the same swatch each time; a later entry overrides an
      earlier one, as in a Python dict literal. */
  const Swatches: map<string, Swatch> := map[
    "0xFF87C4F2" := Primary,
    "0xFF8CC8F5" := Primary,
    "0xFF8CCFF0" := Primary,
    "0xFF89CFF0" := Primary,
    "0xFF88C6E0" := Primary,
    "0xFF88CBE6" := Primary,
    "0xFF8EC9F5" := Primary,
    "0xFF8CCFF0" := Primary,
    "0xFFEF4444" := Error,
    "0xFFE74C3C" := Error,
    "0xFFD92D20" := Error,
    "0xFF22C55E" := Success,
    "0xFF10B981" := Success,
    "0xFFF59E0B" := Warning,
    "0xFF1D2939" := ButtonDark,
    "0xFF1F2937" := ButtonDark,
    "0xFF4090B8" := Secondary,
    "0xFF4BA8C8" := Secondary,
    "0xFF00A3E0" := Secondary,
    "0xFFD6EDF6" := Background,
    "0xFFE6F4FB" := Background,
    "0xFFF3FAFD" := SurfaceTint,
    "0xFFF0F9FF" := SurfaceTint,
    "0xFFF2F9FF" := SurfaceTint,
    "0xFFE7F5FC" := SurfaceTint,
    "0xFFEAF6FF" := SurfaceTint,
    "0xFFE0F2F9" := SurfaceTint,
    "0xFFD6F0FA" := SurfaceTint,
    "0xFFE4F4FC" := SurfaceTint,
    "0xFFEAF6FF" := SurfaceTint,
    "0xFFE8896B" := CoralAccent,
    "0xFF1A3A4A" := TextPrimary,
    "0xFFE0E8EC" := InputBorder
  ]

  /** `COLOR_MAP` itself: key to `AppColors` name. */
  const ColorMap: map<string, string> := map k | k in Swatches :: Name(Swatches[k])

  /** The suffixes of names assumed to exist in the palette already. */
  const AllowList: set<string> := {
    "primary", "primarySoft", "secondary", "coralAccent",
    "background", "surface", "error", "warning", "success",
    "buttonDark", "textPrimary", "inputBorder", "textOnButton"
  }

  /** An upper-case hexadecimal digit. */
  predicate UpperHexDigit(c: char) {
    '0' <= c <= '9' || 'A' <= c <= 'F'
  }

  /** The form every lookup key has: `0xFF` then six upper-case hexadecimal digits. */
  predicate CanonicalKey(k: string) {
    && |k| == 10
    && k[0] == '0' && k[1] == 'x' && k[2] == 'F' && k[3] == 'F'
    && UpperHexDigit(k[4]) && UpperHexDigit(k[5]) && UpperHexDigit(k[6])
    && UpperHexDigit(k[7]) && UpperHexDigit(k[8]) && UpperHexDigit(k[9])
  }

  /** The last characters of a name are not the start of the word `const`, nor
      whitespace: no tail of the name can begin a `const` prefix. */
  predicate ClosedTail(n: string) {
    && |n| >= 2
    && var last := n[|n| - 1];
    && !IsSpace(last) && last != 'c' && last != 'o' && last != 'n'
    && (last == 's' ==> n[|n| - 2] != 'n')
    && (last == 't' ==> n[|n| - 2] != 's')
  }

  /** A name that can never take part in a match once written into a line: it holds no
      parenthesis and no line feed, it holds a dot (which no literal does), no `C`
      stands among its last five characters, so no tail of the name can start a
      literal, and its tail cannot start a `const` prefix either. */
  predicate InertName(n: string) {
    && '(' !in n && ')' !in n && '\n' !in n && '.' in n
    && (forall i :: 0 <= i < |n| && n[i] == 'C' ==> i + 5 < |n|)
    && ClosedTail(n)
  }

  /** Every name of a table is inert. */
  predicate InertTable(table: map<string, string>) {
    forall k :: k in table ==> InertName(table[k])
  }

  /** Python's `name.split('.')[-1]`: the text after the last dot, or all of it. */
  function LastSegment(name: string): (seg: string)
    ensures |seg| <= |name| && seg == name[|name| - |seg|..]
    ensures '.' !in seg
    ensures |seg| < |name| ==> name[|name| - |seg| - 1] == '.'
  {
    if |name| == 0 then ""
    else if name[|name| - 1] == '.' then ""
    else LastSegment(name[..|name| - 1]) + [name[|name| - 1]]
  }

  /** The last segment of `prefix.suffix` is `suffix` whenever `suffix` has no dot. */
  lemma LastSegmentAfterDot(prefix: string, suffix: string)
    requires '.' !in suffix
    ensures LastSegment(prefix + "." + suffix) == suffix
  {
    var name := prefix + "." + suffix;
    var seg := LastSegment(name);
    assert name[|prefix|] == '.';
    if |seg| > |suffix| {
      assert false;
    } else if |seg| < |suffix| {
      assert false;
    }
    assert seg == name[|prefix| + 1..] == suffix;
  }

  /** A name suffix made of ASCII letters other than `C`, with a closed tail. */
  predicate PlainSuffix(suffix: string) {
    && (forall i :: 0 <= i < |suffix| ==> ('a' <= suffix[i] <= 'z' || 'A' <= suffix[i] <= 'Z') && suffix[i] != 'C')
    && ClosedTail(suffix)
  }

  /** Every suffix is plain. */
  lemma SuffixPlain(s: Swatch)
    ensures PlainSuffix(Suffix(s))
  {
    match s
    case Primary => PlainLiteralPrimary();
    case Error => PlainLiteralError();
    case Success => PlainLiteralSuccess();
    case Warning => PlainLiteralWarning();
    case ButtonDark => PlainLiteralButtonDark();
    case Secondary => PlainLiteralSecondary();
    case Background => PlainLiteralBackground();
    case SurfaceTint => PlainLiteralSurfaceTint();
    case CoralAccent => PlainLiteralCoralAccent();
    case TextPrimary => PlainLiteralTextPrimary();
    case InputBorder => PlainLiteralInputBorder();
  }

  // One lemma per suffix below: each string is checked on its own, because checking all
  // eleven in one proof costs the solver far more than the eleven small proofs together.

  lemma PlainLiteralPrimary()
    ensures PlainSuffix("primary")
  {
  }

  lemma PlainLiteralError()
    ensures PlainSuffix("error")
  {
  }

  lemma PlainLiteralSuccess()
    ensures PlainSuffix("success")
  {
  }

  lemma PlainLiteralWarning()
    ensures PlainSuffix("warning")
  {
  }

  lemma PlainLiteralButtonDark()
    ensures PlainSuffix("buttonDark")
  {
  }

  lemma PlainLiteralSecondary()
    ensures PlainSuffix("secondary")
  {
  }

  lemma PlainLiteralBackground()
    ensures PlainSuffix("background")
  {
  }

  lemma PlainLiteralSurfaceTint()
    ensures PlainSuffix("surfaceTint")
  {
  }

  lemma PlainLiteralCoralAccent()
    ensures PlainSuffix("coralAccent")
  {
  }

  lemma PlainLiteralTextPrimary()
    ensures PlainSuffix("textPrimary")
  {
  }

  lemma PlainLiteralInputBorder()
    ensures PlainSuffix("inputBorder")
  {
  }

  /** `AppColors.<suffix>` is inert when the suffix is plain. */
  lemma QualifiedInert(suffix: string)
    requires PlainSuffix(suffix)
    ensures InertName(Qualified(suffix))
  {
    var n := Qualified(suffix);
    assert n == ClassName + "." + suffix;
    assert n[|ClassName|] == '.';
    forall i | 0 <= i < |n| && n[i] == 'C'
      ensures i + 5 < |n|
    {
    }
    assert n[|n| - 1] == suffix[|suffix| - 1] && n[|n| - 2] == suffix[|suffix| - 2];
  }

  /** Every swatch name is inert. */
  lemma SwatchInert(s: Swatch)
    ensures InertName(Name(s))
  {
    SuffixPlain(s);
    QualifiedInert(Suffix(s));
  }

  /** A swatch name's last segment is outside the allow-list exactly for
      `AppColors.surfaceTint`. */
  lemma SwatchNew(s: Swatch)
    ensures LastSegment(Name(s)) !in AllowList <==> s == SurfaceTint
  {
    SuffixNoDot(s);
    LastSegmentAfterDot(ClassName, Suffix(s));
  }

  /** No suffix holds a dot. */
  lemma SuffixNoDot(s: Swatch)
    ensures '.' !in Suffix(s)
  {
    SuffixPlain(s);
  }

  // The table's keys are checked in four groups of at most eight, for the same reason:
  // one proof over all of them costs the solver far more than four small ones.

  lemma KeysCanonical0()
    ensures CanonicalKey("0xFF87C4F2")
      && CanonicalKey("0xFF8CC8F5")
      && CanonicalKey("0xFF8CCFF0")
      && CanonicalKey("0xFF89CFF0")
      && CanonicalKey("0xFF88C6E0")
      && CanonicalKey("0xFF88CBE6")
      && CanonicalKey("0xFF8EC9F5")
      && CanonicalKey("0xFFEF4444")
  {
  }

  lemma KeysCanonical1()
    ensures CanonicalKey("0xFFE74C3C")
      && CanonicalKey("0xFFD92D20")
      && CanonicalKey("0xFF22C55E")
      && CanonicalKey("0xFF10B981")
      && CanonicalKey("0xFFF59E0B")
      && CanonicalKey("0xFF1D2939")
      && CanonicalKey("0xFF1F2937")
      && CanonicalKey("0xFF4090B8")
  {
  }

  lemma KeysCanonical2()
    ensures CanonicalKey("0xFF4BA8C8")
      && CanonicalKey("0xFF00A3E0")
      && CanonicalKey("0xFFD6EDF6")
      && CanonicalKey("0xFFE6F4FB")
      && CanonicalKey("0xFFF3FAFD")
      && CanonicalKey("0xFFF0F9FF")
      && CanonicalKey("0xFFF2F9FF")
      && CanonicalKey("0xFFE7F5FC")
  {
  }

  lemma KeysCanonical3()
    ensures CanonicalKey("0xFFEAF6FF")
      && CanonicalKey("0xFFE0F2F9")
      && CanonicalKey("0xFFD6F0FA")
      && CanonicalKey("0xFFE4F4FC")
      && CanonicalKey("0xFFE8896B")
      && CanonicalKey("0xFF1A3A4A")
      && CanonicalKey("0xFFE0E8EC")
  {
  }

  /** Every key of the table is canonical, so a literal reaches its entry whatever the
      case of its six digits. */
  lemma ColorMapKeysCanonical()
    ensures forall k :: k in ColorMap ==> CanonicalKey(k)
  {
    SwatchKeysCanonical();
  }

  lemma SwatchKeysCanonical()
    ensures forall k :: k in Swatches ==> CanonicalKey(k)
  {
    KeysCanonical0();
    KeysCanonical1();
    KeysCanonical2();
    KeysCanonical3();
  }

  /** The table's names are inert: rewriting with them cannot create a literal. */
  lemma ColorMapInert()
    ensures InertTable(ColorMap)
  {
    forall k | k in ColorMap
      ensures InertName(ColorMap[k])
    {
      SwatchInert(Swatches[k]);
    }
  }

  /** Of the table's names, only `AppColors.surfaceTint` lies outside the allow-list. */
  lemma OnlySurfaceTintIsNew()
    ensures forall k :: k in ColorMap ==> (LastSegment(ColorMap[k]) !in AllowList <==> ColorMap[k] == Name(SurfaceTint))
  {
    forall k | k in ColorMap
      ensures LastSegment(ColorMap[k]) !in AllowList <==> ColorMap[k] == Name(SurfaceTint)
    {
      SwatchNew(Swatches[k]);
      NamesDistinct(Swatches[k], SurfaceTint);
    }
  }

  /** Distinct swatches have distinct names. */
  lemma NamesDistinct(s: Swatch, t: Swatch)
    ensures Name(s) == Name(t) ==> s == t
  {
    if Name(s) == Name(t) {
      assert Qualified(Suffix(s))[|ClassName| + 1..] == Suffix(s);
      assert Qualified(Suffix(t))[|ClassName| + 1..] == Suffix(t);
    }
  }
}
