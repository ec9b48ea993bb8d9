/**
 * The pure helpers of the dataset prompt wizard (scripts/dataset-prompt-wizard.mjs) and the loop
 * that collects a list of answer types with unique ids. The regular expressions of the source are
 * written out as character classes and scans; the interactive prompts of the loop are replaced by
 * the lines the user would type.
 */
module DatasetWizard {
  import opened Wrappers
  import opened JsString

  // ---------------------------------------------------------------------------------------------
  // Character classes

  predicate IsLowerLetter(c: char) { 'a' <= c <= 'z' }

  /** `[a-z0-9]` */
  predicate IsSlugChar(c: char) { IsLowerLetter(c) || '0' <= c <= '9' }

  /** `[a-z0-9_]` */
  predicate IsIdChar(c: char) { IsSlugChar(c) || c == '_' }

  predicate AllIdChars(s: string) {
    forall i :: 0 <= i < |s| ==> IsIdChar(s[i])
  }

  /** No two underscores in a row. */
  ghost predicate NoDoubleUnderscore(s: string) {
    forall i, j :: 0 <= i < j < |s| && j == i + 1 ==> s[i] != '_' || s[j] != '_'
  }

  /** The letters and digits of `s`, in order. */
  function SlugChars(s: string): string {
    if s == [] then [] else (if IsSlugChar(s[0]) then [s[0]] else []) + SlugChars(s[1..])
  }

  // ---------------------------------------------------------------------------------------------
  // normalizeMode

  datatype Mode = Provided | Invented | Derived

  function ModeName(m: Mode): string {
    match m
    case Provided => "provided"
    case Invented => "invented"
    case Derived => "derived"
  }

  /** The mode a trimmed, lower-cased answer selects: its name, its menu number or its initial. */
  function ModeOf(value: string): Option<Mode> {
    if value == "provided" || value == "1" || value == "p" then Some(Provided)
    else if value == "invented" || value == "2" || value == "i" then Some(Invented)
    else if value == "derived" || value == "3" || value == "d" then Some(Derived)
    else None
  }

  /** normalizeMode(raw); `raw` is None for null or undefined. */
  function NormalizeMode(raw: Option<string>): Option<Mode> {
    ModeOf(ToLower(Trim(raw.GetOr(""))))
  }

  /** The number askMode's menu prints in front of each mode. */
  function MenuNumber(m: Mode): string {
    match m
    case Provided => "1"
    case Invented => "2"
    case Derived => "3"
  }

  /** Surrounding whitespace and letter case do not change the mode chosen. */
  lemma NormalizeModeInsensitive(w1: string, x: string, y: string, w2: string)
    requires AllWhitespace(w1) && AllWhitespace(w2)
    requires ToLower(x) == ToLower(y)
    ensures NormalizeMode(Some(w1 + x + w2)) == NormalizeMode(Some(y))
  {
    TrimPadded(w1, x, w2);
    LowerTrim(x);
    LowerTrim(y);
  }

  /** A word of lower-case letters and digits is its own trimmed, lower-cased form. */
  lemma LowerWordNormal(w: string)
    requires forall i :: 0 <= i < |w| ==> IsSlugChar(w[i])
    ensures ToLower(Trim(w)) == w
  {
    if w != [] {
      assert !IsWhitespace(w[0]) && !IsWhitespace(w[|w| - 1]);
      assert TrimStart(w) == w;
      assert TrimEnd(w) == w;
    }
    assert ToLower(w) == w;
  }

  lemma ModeOfName(m: Mode)
    ensures ModeOf(ModeName(m)) == Some(m)
  {
    if m == Invented {
      assert "invented"[0] != "provided"[0];
    }
  }

  /** normalizeMode is a fixpoint on its own results: each mode's name normalizes to that mode. */
  lemma NormalizeModeFixpoint(m: Mode)
    ensures NormalizeMode(Some(ModeName(m))) == Some(m)
  {
    ModeOfName(m);
    match m
    case Provided =>
      LowerWordNormal("provided");
    case Invented =>
      LowerWordNormal("invented");
    case Derived =>
      LowerWordNormal("derived");
  }

  /** The menu askMode prints agrees with normalizeMode: typing a mode's number selects that mode. */
  lemma MenuNumberSelectsMode(m: Mode)
    ensures NormalizeMode(Some(MenuNumber(m))) == Some(m)
  {
    assert ModeOf(MenuNumber(m)) == Some(m);
    match m
    case Provided =>
      LowerWordNormal("1");
    case Invented =>
      LowerWordNormal("2");
    case Derived =>
      LowerWordNormal("3");
  }

  /** Nothing typed (or null) selects no mode. */
  lemma NormalizeModeEmpty()
    ensures NormalizeMode(None) == None && NormalizeMode(Some("")) == None
  {
    assert Trim("") == "";
    assert ToLower("") == "";
  }

  // ---------------------------------------------------------------------------------------------
  // slugifyAscii: lower-case, then three regular-expression replacements

  /** `s` without its leading characters outside `[a-z0-9]`. */
  function DropNonSlug(s: string): (r: string)
    ensures |r| <= |s| && r == s[|s| - |r|..]
    ensures r == [] || IsSlugChar(r[0])
  {
    if s != [] && !IsSlugChar(s[0]) then DropNonSlug(s[1..]) else s
  }

  /** `.replace(/[^a-z0-9]+/g, '_')`: every maximal run outside `[a-z0-9]` becomes one underscore. */
  function ReplaceNonSlugRuns(s: string): string
    decreases |s|
  {
    if s == [] then []
    else if IsSlugChar(s[0]) then [s[0]] + ReplaceNonSlugRuns(s[1..])
    else "_" + ReplaceNonSlugRuns(DropNonSlug(s[1..]))
  }

  /** `s` without its leading underscores. */
  function DropUnderscores(s: string): (r: string)
    ensures |r| <= |s| && r == s[|s| - |r|..]
    ensures r == [] || r[0] != '_'
  {
    if s != [] && s[0] == '_' then DropUnderscores(s[1..]) else s
  }

  /** `.replace(/_+/g, '_')`: every run of underscores becomes one underscore. */
  function CollapseUnderscores(s: string): string
    decreases |s|
  {
    if s == [] then []
    else if s[0] == '_' then "_" + CollapseUnderscores(DropUnderscores(s[1..]))
    else [s[0]] + CollapseUnderscores(s[1..])
  }

  /** `s` without its trailing underscores. */
  function DropTrailingUnderscores(s: string): (r: string)
    ensures |r| <= |s| && r == s[..|r|]
    ensures r == [] || r[|r| - 1] != '_'
  {
    if s != [] && s[|s| - 1] == '_' then DropTrailingUnderscores(s[..|s| - 1]) else s
  }

  /** `.replace(/^_+|_+$/g, '')`: leading and trailing underscores removed. */
  function StripEdgeUnderscores(s: string): string {
    DropTrailingUnderscores(DropUnderscores(s))
  }

  /** slugifyAscii(value). */
  function SlugifyAscii(value: string): string {
    StripEdgeUnderscores(CollapseUnderscores(ReplaceNonSlugRuns(ToLower(value))))
  }

  /** The slug shape: only `[a-z0-9_]`, no `__`, no underscore at either end. */
  ghost predicate IsSlug(s: string) {
    && AllIdChars(s)
    && NoDoubleUnderscore(s)
    && (s == [] || (s[0] != '_' && s[|s| - 1] != '_'))
  }

  lemma {:induction false} ReplaceNonSlugRunsShape(s: string)
    ensures AllIdChars(ReplaceNonSlugRuns(s)) && NoDoubleUnderscore(ReplaceNonSlugRuns(s))
    ensures s != [] && IsSlugChar(s[0]) ==> ReplaceNonSlugRuns(s)[0] == s[0]
    ensures SlugChars(ReplaceNonSlugRuns(s)) == SlugChars(s)
    decreases |s|
  {
    if s != [] {
      if IsSlugChar(s[0]) {
        ReplaceNonSlugRunsShape(s[1..]);
        var r := ReplaceNonSlugRuns(s[1..]);
        assert ReplaceNonSlugRuns(s) == [s[0]] + r;
        assert ([s[0]] + r)[1..] == r;
      } else {
        var d := DropNonSlug(s[1..]);
        DropNonSlugKeepsSlugChars(s[1..]);
        ReplaceNonSlugRunsShape(d);
        var r := ReplaceNonSlugRuns(d);
        assert ReplaceNonSlugRuns(s) == "_" + r;
        assert r != [] ==> r[0] == d[0];
        assert ("_" + r)[1..] == r;
      }
    }
  }

  /** No character of `w` is a letter or digit: `w` lies inside one run that `/[^a-z0-9]+/` matches. */
  predicate NoSlugChar(w: string) {
    forall i :: 0 <= i < |w| ==> !IsSlugChar(w[i])
  }

  /** Skipping a non-slug run stops exactly where the next letter or digit begins. */
  lemma {:induction false} DropNonSlugRun(w: string, b: string)
    requires NoSlugChar(w) && (b == [] || IsSlugChar(b[0]))
    ensures DropNonSlug(w + b) == b
    decreases |w|
  {
    if w == [] {
      assert w + b == b;
    } else {
      assert (w + b)[0] == w[0] && (w + b)[1..] == w[1..] + b;
      DropNonSlugRun(w[1..], b);
    }
  }

  /** Skipping a run that ends inside `s` (before its last letter or digit) does not reach `t`. */
  lemma {:induction false} DropNonSlugBefore(s: string, t: string)
    requires s != [] && IsSlugChar(s[|s| - 1])
    ensures DropNonSlug(s + t) == DropNonSlug(s) + t
    ensures DropNonSlug(s) != [] && DropNonSlug(s)[|DropNonSlug(s)| - 1] == s[|s| - 1]
    decreases |s|
  {
    assert (s + t)[0] == s[0];
    if !IsSlugChar(s[0]) {
      assert |s| >= 2;
      assert (s + t)[1..] == s[1..] + t;
      DropNonSlugBefore(s[1..], t);
    }
  }

  lemma ConcatTail(a: string, t: string)
    requires a != []
    ensures (a + t)[0] == a[0] && (a + t)[1..] == a[1..] + t
  {
  }

  lemma ConcatAssoc(x: string, y: string, z: string)
    ensures x + (y + z) == (x + y) + z
  {
  }

  /** A run of other characters at the start becomes one underscore in front of what follows it. */
  lemma RunThenSlug(w: string, b: string)
    requires w != [] && NoSlugChar(w)
    requires b == [] || IsSlugChar(b[0])
    ensures ReplaceNonSlugRuns(w + b) == "_" + ReplaceNonSlugRuns(b)
  {
    ConcatTail(w, b);
    DropNonSlugRun(w[1..], b);
  }

  /** The separator step when `a` starts with a letter or digit, given the step for the rest of `a`. */
  lemma SeparatorAfterSlugChar(a: string, t: string, u: string)
    requires a != [] && IsSlugChar(a[0])
    requires ReplaceNonSlugRuns(a[1..] + t) == ReplaceNonSlugRuns(a[1..]) + u
    ensures ReplaceNonSlugRuns(a + t) == ReplaceNonSlugRuns(a) + u
  {
    ConcatTail(a, t);
    ConcatAssoc([a[0]], ReplaceNonSlugRuns(a[1..]), u);
  }

  /** The separator step when `a` starts with another character, given the step after its run. */
  lemma SeparatorAfterRun(a: string, t: string, u: string)
    requires a != [] && !IsSlugChar(a[0])
    requires DropNonSlug(a[1..] + t) == DropNonSlug(a[1..]) + t
    requires ReplaceNonSlugRuns(DropNonSlug(a[1..]) + t) == ReplaceNonSlugRuns(DropNonSlug(a[1..])) + u
    ensures ReplaceNonSlugRuns(a + t) == ReplaceNonSlugRuns(a) + u
  {
    var d := DropNonSlug(a[1..]);
    var s := a + t;
    ConcatTail(a, t);
    calc {
      ReplaceNonSlugRuns(s);
      "_" + ReplaceNonSlugRuns(DropNonSlug(s[1..]));
      "_" + ReplaceNonSlugRuns(d + t);
      "_" + (ReplaceNonSlugRuns(d) + u);
      { ConcatAssoc("_", ReplaceNonSlugRuns(d), u); }
      ("_" + ReplaceNonSlugRuns(d)) + u;
      ReplaceNonSlugRuns(a) + u;
    }
  }

  /**
   * The first replacement puts exactly one underscore where a run of other characters stood
   * between two parts: `a` (empty or ending in a letter or digit) and `b` (empty or starting
   * with one) are replaced independently, and the run `w` between them becomes `_`.
   */
  lemma {:induction false} ReplaceNonSlugRunsSeparator(a: string, w: string, b: string)
    requires a == [] || IsSlugChar(a[|a| - 1])
    requires w != [] && NoSlugChar(w)
    requires b == [] || IsSlugChar(b[0])
    ensures ReplaceNonSlugRuns(a + (w + b)) == ReplaceNonSlugRuns(a) + ("_" + ReplaceNonSlugRuns(b))
    decreases |a|, 1
  {
    if a == [] {
      assert a + (w + b) == w + b;
      RunThenSlug(w, b);
    } else if IsSlugChar(a[0]) {
      SeparatorSlugCharFirst(a, w, b);
    } else {
      SeparatorRunFirst(a, w, b);
    }
  }

  lemma {:induction false} SeparatorSlugCharFirst(a: string, w: string, b: string)
    requires a != [] && IsSlugChar(a[0]) && IsSlugChar(a[|a| - 1])
    requires w != [] && NoSlugChar(w)
    requires b == [] || IsSlugChar(b[0])
    ensures ReplaceNonSlugRuns(a + (w + b)) == ReplaceNonSlugRuns(a) + ("_" + ReplaceNonSlugRuns(b))
    decreases |a|, 0
  {
    assert a[1..] == [] || a[1..][|a[1..]| - 1] == a[|a| - 1];
    ReplaceNonSlugRunsSeparator(a[1..], w, b);
    SeparatorAfterSlugChar(a, w + b, "_" + ReplaceNonSlugRuns(b));
  }

  lemma {:induction false} SeparatorRunFirst(a: string, w: string, b: string)
    requires a != [] && !IsSlugChar(a[0]) && IsSlugChar(a[|a| - 1])
    requires w != [] && NoSlugChar(w)
    requires b == [] || IsSlugChar(b[0])
    ensures ReplaceNonSlugRuns(a + (w + b)) == ReplaceNonSlugRuns(a) + ("_" + ReplaceNonSlugRuns(b))
    decreases |a|, 0
  {
    DropNonSlugBefore(a[1..], w + b);
    ReplaceNonSlugRunsSeparator(DropNonSlug(a[1..]), w, b);
    SeparatorAfterRun(a, w + b, "_" + ReplaceNonSlugRuns(b));
  }

  /** The second replacement changes nothing in a text that has no `__`. */
  lemma {:induction false} CollapseWithoutDoubles(s: string)
    requires NoDoubleUnderscore(s)
    ensures CollapseUnderscores(s) == s
    decreases |s|
  {
    if s != [] {
      CollapseWithoutDoubles(s[1..]);
      if s[0] == '_' {
        assert DropUnderscores(s[1..]) == s[1..];
      }
    }
  }

  predicate AllUnderscores(s: string) {
    forall i :: 0 <= i < |s| ==> s[i] == '_'
  }

  lemma SlugCharsOfUnderscores(s: string)
    requires AllUnderscores(s)
    ensures SlugChars(s) == []
  {
  }

  lemma {:induction false} SlugCharsAppend(a: string, b: string)
    ensures SlugChars(a + b) == SlugChars(a) + SlugChars(b)
  {
    if a != [] {
      assert (a + b)[1..] == a[1..] + b;
      SlugCharsAppend(a[1..], b);
    } else {
      assert a + b == b;
    }
  }

  /** A slice of a text of `[a-z0-9_]` without `__` is again such a text. */
  lemma SliceKeepsIdShape(s: string, i: nat, j: nat)
    requires i <= j <= |s|
    requires AllIdChars(s) && NoDoubleUnderscore(s)
    ensures AllIdChars(s[i..j]) && NoDoubleUnderscore(s[i..j])
  {
    var t := s[i..j];
    forall k | 0 <= k < |t|
      ensures IsIdChar(t[k])
    {
      assert t[k] == s[i + k];
    }
    forall k, l | 0 <= k < l < |t| && l == k + 1
      ensures t[k] != '_' || t[l] != '_'
    {
      assert t[k] == s[i + k] && t[l] == s[i + l];
    }
  }

  lemma DropUnderscoresKeepsIdShape(s: string)
    requires AllIdChars(s) && NoDoubleUnderscore(s)
    ensures AllIdChars(DropUnderscores(s)) && NoDoubleUnderscore(DropUnderscores(s))
  {
    SliceKeepsIdShape(s, |s| - |DropUnderscores(s)|, |s|);
  }

  lemma DropTrailingUnderscoresKeepsIdShape(s: string)
    requires AllIdChars(s) && NoDoubleUnderscore(s)
    ensures AllIdChars(DropTrailingUnderscores(s)) && NoDoubleUnderscore(DropTrailingUnderscores(s))
  {
    SliceKeepsIdShape(s, 0, |DropTrailingUnderscores(s)|);
  }

  /** Stripping edge underscores from a text of `[a-z0-9_]` without `__` leaves a slug. */
  lemma StripEdgeUnderscoresShape(s: string)
    requires AllIdChars(s) && NoDoubleUnderscore(s)
    ensures IsSlug(StripEdgeUnderscores(s))
  {
    var d := DropUnderscores(s);
    var r := DropTrailingUnderscores(d);
    DropUnderscoresKeepsIdShape(s);
    DropTrailingUnderscoresKeepsIdShape(d);
    assert r != [] ==> r[0] == d[0];
  }

  /** Dropping leading characters outside `[a-z0-9]` removes no letter or digit. */
  lemma {:induction false} DropNonSlugKeepsSlugChars(s: string)
    ensures SlugChars(DropNonSlug(s)) == SlugChars(s)
    decreases |s|
  {
    if s != [] && !IsSlugChar(s[0]) {
      DropNonSlugKeepsSlugChars(s[1..]);
    }
  }

  lemma {:induction false} DropUnderscoresKeepsSlugChars(s: string)
    ensures SlugChars(DropUnderscores(s)) == SlugChars(s)
    decreases |s|
  {
    if s != [] && s[0] == '_' {
      DropUnderscoresKeepsSlugChars(s[1..]);
    }
  }

  lemma DropTrailingUnderscoresKeepsSlugChars(s: string)
    ensures SlugChars(DropTrailingUnderscores(s)) == SlugChars(s)
  {
    var r := DropTrailingUnderscores(s);
    assert s == r + s[|r|..];
    SlugCharsAppend(r, s[|r|..]);
    DropTrailingUnderscoresSuffix(s);
    SlugCharsOfUnderscores(s[|r|..]);
  }

  /** Stripping edge underscores removes no letter or digit. */
  lemma StripEdgeUnderscoresKeepsSlugChars(s: string)
    ensures SlugChars(StripEdgeUnderscores(s)) == SlugChars(s)
  {
    DropUnderscoresKeepsSlugChars(s);
    DropTrailingUnderscoresKeepsSlugChars(DropUnderscores(s));
  }

  lemma {:induction false} DropTrailingUnderscoresSuffix(s: string)
    ensures AllUnderscores(s[|DropTrailingUnderscores(s)|..])
    decreases |s|
  {
    if s != [] && s[|s| - 1] == '_' {
      var n := |s| - 1;
      DropTrailingUnderscoresSuffix(s[..n]);
      var k := |DropTrailingUnderscores(s[..n])|;
      assert s[k..] == s[..n][k..] + [s[n]];
    }
  }

  /** What slugifyAscii guarantees of its result, and that it keeps every letter and digit in order. */
  lemma SlugifyShape(value: string)
    ensures IsSlug(SlugifyAscii(value))
    ensures SlugChars(SlugifyAscii(value)) == SlugChars(ToLower(value))
  {
    var r := ReplaceNonSlugRuns(ToLower(value));
    ReplaceNonSlugRunsShape(ToLower(value));
    CollapseWithoutDoubles(r);
    StripEdgeUnderscoresShape(r);
    StripEdgeUnderscoresKeepsSlugChars(r);
  }

  lemma {:induction false} ReplaceNonSlugRunsOnSlug(s: string)
    requires AllIdChars(s) && NoDoubleUnderscore(s)
    ensures ReplaceNonSlugRuns(s) == s
    decreases |s|
  {
    if s != [] {
      ReplaceNonSlugRunsOnSlug(s[1..]);
      if !IsSlugChar(s[0]) {
        assert s[1..] != [] ==> s[1] != '_';
        assert DropNonSlug(s[1..]) == s[1..];
      }
    }
  }

  /** A slug is its own slug. */
  lemma SlugFixpoint(y: string)
    requires IsSlug(y)
    ensures SlugifyAscii(y) == y
  {
    assert ToLower(y) == y;
    ReplaceNonSlugRunsOnSlug(y);
    CollapseWithoutDoubles(y);
    assert DropUnderscores(y) == y;
    assert DropTrailingUnderscores(y) == y;
  }

  /** slugifyAscii is idempotent. */
  lemma SlugifyIdempotent(value: string)
    ensures SlugifyAscii(SlugifyAscii(value)) == SlugifyAscii(value)
  {
    SlugifyShape(value);
    SlugFixpoint(SlugifyAscii(value));
  }

  /** A slug that keeps the letters and digits of `lower` is empty exactly when `lower` has none. */
  lemma SlugEmptyIff(y: string, lower: string)
    requires IsSlug(y) && SlugChars(y) == SlugChars(lower)
    ensures y == [] <==> forall i :: 0 <= i < |lower| ==> !IsSlugChar(lower[i])
  {
    NoSlugChars(lower);
    SlugHasSlugChar(y);
  }

  /** The slug is empty exactly when the lower-cased input has no ASCII letter or digit. */
  lemma SlugifyEmptyIff(value: string)
    ensures SlugifyAscii(value) == [] <==> forall i :: 0 <= i < |value| ==> !IsSlugChar(LowerChar(value[i]))
  {
    var lower := ToLower(value);
    SlugifyShape(value);
    SlugEmptyIff(SlugifyAscii(value), lower);
    assert forall i :: 0 <= i < |value| ==> lower[i] == LowerChar(value[i]);
  }

  /** A non-empty slug holds a letter or digit: its first character. */
  lemma SlugHasSlugChar(y: string)
    requires IsSlug(y)
    ensures y != [] ==> SlugChars(y) != []
  {
  }

  /** A text has no letters or digits to keep exactly when none of its characters is one. */
  lemma {:induction false} NoSlugChars(s: string)
    ensures SlugChars(s) == [] <==> forall i :: 0 <= i < |s| ==> !IsSlugChar(s[i])
  {
    if s != [] {
      NoSlugChars(s[1..]);
      assert forall i :: 1 <= i < |s| ==> s[i] == s[1..][i - 1];
    }
  }

  // ---------------------------------------------------------------------------------------------
  // validateDatasetId and validateAnswerTypeId

  /** How far a greedy `[a-z0-9_]*` reaches from the start of `s`. */
  function IdCharRun(s: string): (n: nat)
    ensures n <= |s|
    ensures forall i :: 0 <= i < n ==> IsIdChar(s[i])
    ensures n < |s| ==> !IsIdChar(s[n])
  {
    if s != [] && IsIdChar(s[0]) then 1 + IdCharRun(s[1..]) else 0
  }

  /** `/^[a-z][a-z0-9_]{2,63}$/.test(datasetId)` */
  function ValidateDatasetId(datasetId: string): (ok: bool)
    ensures ok <==> && 3 <= |datasetId| <= 64
                    && IsLowerLetter(datasetId[0])
                    && forall i :: 1 <= i < |datasetId| ==> IsIdChar(datasetId[i])
  {
    && |datasetId| >= 1
    && IsLowerLetter(datasetId[0])
    && var n := IdCharRun(datasetId[1..]);
       n == |datasetId| - 1 && 2 <= n <= 63
  }

  const AnswerTypePrefix: string := "at_"

  /** `/^at_[a-z0-9_]+$/.test(id)` */
  function ValidateAnswerTypeId(id: string): (ok: bool)
    ensures ok <==> && |id| >= 4
                    && id[..3] == AnswerTypePrefix
                    && forall i :: 3 <= i < |id| ==> IsIdChar(id[i])
  {
    && |id| >= 3
    && id[..3] == AnswerTypePrefix
    && var n := IdCharRun(id[3..]);
       n == |id| - 3 && n >= 1
  }

  // ---------------------------------------------------------------------------------------------
  // askProvidedAnswerTypes

  /** The id offered as the default: `at_` and the slug of the English name, or `at_type`. */
  function SuggestedId(enName: string): string {
    var slug := SlugifyAscii(enName);
    AnswerTypePrefix + (if slug == [] then "type" else slug)
  }

  lemma SlugIdChars(value: string)
    ensures AllIdChars(SlugifyAscii(value))
  {
    SlugifyShape(value);
  }

  /** `at_` followed by a non-empty run of id characters is a valid answer-type id. */
  lemma PrefixedIdValid(tail: string)
    requires tail != [] && AllIdChars(tail)
    ensures ValidateAnswerTypeId(AnswerTypePrefix + tail)
  {
    var id := AnswerTypePrefix + tail;
    assert id[..3] == AnswerTypePrefix;
    forall i | 3 <= i < |id| ensures IsIdChar(id[i]) {
      assert id[i] == tail[i - 3];
    }
  }

  lemma DefaultTailValid()
    ensures ValidateAnswerTypeId(AnswerTypePrefix + "type")
  {
    PrefixedIdValid("type");
  }

  /** The default id always passes validateAnswerTypeId. */
  lemma SuggestedIdValid(enName: string)
    ensures ValidateAnswerTypeId(SuggestedId(enName))
  {
    var slug := SlugifyAscii(enName);
    if slug == [] {
      DefaultTailValid();
    } else {
      SlugIdChars(enName);
      PrefixedIdValid(slug);
    }
  }

  /** The id a typed line stands for: askLine trims it, and an empty answer takes the default. */
  function IdFromLine(line: string, suggested: string): string {
    var answer := Trim(line);
    if answer == [] then suggested else answer
  }

  /** The id a line stands for is invalid or already taken, so the prompt asks again. */
  predicate Rejected(line: string, suggested: string, seen: set<string>) {
    var id := IdFromLine(line, suggested);
    !ValidateAnswerTypeId(id) || id in seen
  }

  /** The first typed line whose id is valid and not yet taken; None when the lines run out first. */
  function FirstAcceptedId(lines: seq<string>, suggested: string, seen: set<string>): (r: Option<string>)
    ensures r.Some? ==> ValidateAnswerTypeId(r.value) && r.value !in seen
  {
    if lines == [] then None
    else
      if !Rejected(lines[0], suggested, seen) then Some(IdFromLine(lines[0], suggested))
      else FirstAcceptedId(lines[1..], suggested, seen)
  }

  /** Every line before index `k` passes `p`. */
  predicate AllBefore(p: string -> bool, lines: seq<string>, k: nat)
    requires k <= |lines|
  {
    forall j :: 0 <= j < k ==> p(lines[j])
  }

  /** Every line before index `k` is rejected. */
  predicate RejectedBefore(lines: seq<string>, suggested: string, seen: set<string>, k: nat)
    requires k <= |lines|
  {
    AllBefore(line => Rejected(line, suggested, seen), lines, k)
  }

  lemma AllBeforeCons(p: string -> bool, lines: seq<string>, k: nat)
    requires k < |lines| && p(lines[0]) && AllBefore(p, lines[1..], k)
    ensures AllBefore(p, lines, k + 1)
  {
    forall j | 0 < j < k + 1 ensures p(lines[j]) {
      assert lines[j] == lines[1..][j - 1];
    }
  }

  lemma AllBeforeTail(p: string -> bool, lines: seq<string>, k: nat)
    requires k < |lines| && AllBefore(p, lines, k + 1)
    ensures p(lines[0]) && AllBefore(p, lines[1..], k)
  {
    forall j | 0 <= j < k ensures p(lines[1..][j]) {
      assert lines[1..][j] == lines[j + 1];
    }
  }

  /** No id is accepted exactly when every line gives an invalid or already taken id. */
  lemma {:induction false} FirstAcceptedIdNone(lines: seq<string>, suggested: string, seen: set<string>)
    ensures FirstAcceptedId(lines, suggested, seen).None? <==> RejectedBefore(lines, suggested, seen, |lines|)
  {
    var p := line => Rejected(line, suggested, seen);
    if lines == [] {
      assert RejectedBefore(lines, suggested, seen, 0);
    } else {
      var rest := lines[1..];
      FirstAcceptedIdNone(rest, suggested, seen);
      if Rejected(lines[0], suggested, seen) {
        if RejectedBefore(rest, suggested, seen, |rest|) {
          AllBeforeCons(p, lines, |rest|);
        }
        if RejectedBefore(lines, suggested, seen, |lines|) {
          AllBeforeTail(p, lines, |rest|);
        }
      } else {
        assert !p(lines[0]);
      }
    }
  }

  /** The accepted id is the one given by some line, and every line before it was rejected. */
  lemma {:induction false} FirstAcceptedIdFromLine(lines: seq<string>, suggested: string, seen: set<string>)
    requires FirstAcceptedId(lines, suggested, seen).Some?
    ensures exists k :: (0 <= k < |lines| && RejectedBefore(lines, suggested, seen, k)
                        && FirstAcceptedId(lines, suggested, seen).value == IdFromLine(lines[k], suggested))
  {
    var rest := lines[1..];
    if Rejected(lines[0], suggested, seen) {
      FirstAcceptedIdFromLine(rest, suggested, seen);
      var k :| 0 <= k < |rest| && RejectedBefore(rest, suggested, seen, k)
        && FirstAcceptedId(rest, suggested, seen).value == IdFromLine(rest[k], suggested);
      assert rest[k] == lines[k + 1];
      AllBeforeCons(line => Rejected(line, suggested, seen), lines, k);
    } else {
      assert RejectedBefore(lines, suggested, seen, 0);
    }
  }

  /** What the user types for one answer type: the two names, then the lines offered as its id. */
  datatype EntryInput = EntryInput(enName: string, deName: string, idLines: seq<string>)

  /** One collected answer type with its English and German names. */
  datatype AnswerType = AnswerType(id: string, enName: string, deName: string)

  datatype ProvidedAnswerTypes = ProvidedAnswerTypes(answerTypes: seq<AnswerType>, answerTypeCount: nat)

  /** The input ended while the next answer type was asked for; `collected` holds those accepted before. */
  datatype WizardError = InputEnded(collected: seq<AnswerType>)

  /** The id askProvidedAnswerTypes accepts for `e` when the ids in `seen` are taken. */
  function AcceptedId(e: EntryInput, seen: set<string>): Option<string> {
    FirstAcceptedId(e.idLines, SuggestedId(e.enName), seen)
  }

  function IdsOf(types: seq<AnswerType>): set<string> {
    set k | 0 <= k < |types| :: types[k].id
  }

  /** How the id of an entry is chosen, given the ids taken before it. */
  type Acceptor = (EntryInput, set<string>) -> Option<string>

  /**
   * `types` is what a collection loop that picks ids with `accept` gives for the first |types|
   * entries: each keeps the names it was entered with and takes the id `accept` picks when the
   * ids of the earlier ones are taken.
   */
  ghost predicate AcceptedBy(accept: Acceptor, entries: seq<EntryInput>, types: seq<AnswerType>)
    decreases |types|
  {
    && |types| <= |entries|
    && (types == [] ||
        var n := |types| - 1;
        AcceptedBy(accept, entries, types[..n]) && EntryAcceptedBy(accept, entries[n], types[n], IdsOf(types[..n])))
  }

  /** `t` keeps the names of `e` and has the id `accept` picks for `e` when the ids in `seen` are taken. */
  predicate EntryAcceptedBy(accept: Acceptor, e: EntryInput, t: AnswerType, seen: set<string>) {
    && t.enName == e.enName
    && t.deName == e.deName
    && accept(e, seen) == Some(t.id)
  }

  /** `types` is what askProvidedAnswerTypes collects for the first |types| entries. */
  ghost predicate AcceptedFrom(entries: seq<EntryInput>, types: seq<AnswerType>) {
    AcceptedBy(AcceptedId, entries, types)
  }

  lemma IdsOfAppend(types: seq<AnswerType>, t: AnswerType)
    ensures IdsOf(types + [t]) == IdsOf(types) + {t.id}
  {
    var next := types + [t];
    assert forall k :: 0 <= k < |types| ==> next[k] == types[k];
    assert next[|types|] == t;
  }

  /** Accepting one more entry as the loop body does keeps AcceptedBy. */
  lemma AcceptedByExtend(accept: Acceptor, entries: seq<EntryInput>, types: seq<AnswerType>, t: AnswerType)
    requires AcceptedBy(accept, entries, types) && |types| < |entries|
    requires EntryAcceptedBy(accept, entries[|types|], t, IdsOf(types))
    ensures AcceptedBy(accept, entries, types + [t])
  {
    var next := types + [t];
    assert next[..|types|] == types;
  }

  /** Each collected entry keeps its names and has the id picked after the entries before it. */
  lemma {:induction false} AcceptedByAt(accept: Acceptor, entries: seq<EntryInput>, types: seq<AnswerType>, k: nat)
    requires AcceptedBy(accept, entries, types) && k < |types|
    ensures k < |entries| && EntryAcceptedBy(accept, entries[k], types[k], IdsOf(types[..k]))
    decreases |types|
  {
    var n := |types| - 1;
    if k < n {
      AcceptedByAt(accept, entries, types[..n], k);
      assert types[..n][k] == types[k] && types[..n][..k] == types[..k];
    }
  }

  /** Ids collected by askProvidedAnswerTypes are valid and pairwise distinct. */
  lemma AcceptedIdsValidDistinct(entries: seq<EntryInput>, types: seq<AnswerType>)
    requires AcceptedFrom(entries, types)
    ensures forall k :: 0 <= k < |types| ==> ValidateAnswerTypeId(types[k].id)
    ensures forall j, k :: 0 <= j < k < |types| ==> types[j].id != types[k].id
  {
    forall k | 0 <= k < |types|
      ensures ValidateAnswerTypeId(types[k].id) && types[k].id !in IdsOf(types[..k])
    {
      AcceptedByAt(AcceptedId, entries, types, k);
      assert AcceptedId(entries[k], IdsOf(types[..k])) == Some(types[k].id);
    }
    forall j, k | 0 <= j < k < |types|
      ensures types[j].id != types[k].id
    {
      assert types[..k][j] == types[j];
      assert types[j].id in IdsOf(types[..k]);
    }
  }

  /**
   * The id prompt of askProvidedAnswerTypes: reads lines until one gives a valid id that is not
   * in `seen`, re-asking after an invalid or taken id; None when the lines run out.
   */
  method AskAnswerTypeId(lines: seq<string>, suggested: string, seen: set<string>)
    returns (accepted: Option<string>)
    ensures accepted == FirstAcceptedId(lines, suggested, seen)
  {
    var j := 0;
    accepted := None;
    while j < |lines| && accepted.None?
      invariant 0 <= j <= |lines|
      invariant accepted.None? ==>
        FirstAcceptedId(lines, suggested, seen) == FirstAcceptedId(lines[j..], suggested, seen)
      invariant accepted.Some? ==> accepted == FirstAcceptedId(lines, suggested, seen)
      decreases |lines| - j, accepted.None?
    {
      var id := IdFromLine(lines[j], suggested);
      assert lines[j..][0] == lines[j] && lines[j..][1..] == lines[j + 1..];
      if !ValidateAnswerTypeId(id) {
        j := j + 1;
        continue;
      }
      if id in seen {
        j := j + 1;
        continue;
      }
      accepted := Some(id);
    }
  }

  /**
   * askProvidedAnswerTypes for `count` answer types (askInt has already validated the count). For each
   * one the names are taken as entered and id lines are read until one gives a valid id not used
   * before; a blank line takes the suggested id. Running out of lines ends the collection.
   */
  method AskProvidedAnswerTypes(count: nat, entries: seq<EntryInput>)
    returns (r: Result<ProvidedAnswerTypes, WizardError>)
    ensures r.Success? ==> |r.value.answerTypes| == r.value.answerTypeCount == count
    ensures r.Success? ==> AcceptedFrom(entries, r.value.answerTypes)
    ensures r.Success? ==> forall k :: 0 <= k < count ==> ValidateAnswerTypeId(r.value.answerTypes[k].id)
    ensures r.Success? ==> forall j, k :: 0 <= j < k < count ==>
      r.value.answerTypes[j].id != r.value.answerTypes[k].id
    ensures r.Failure? ==> var done := r.error.collected;
      && |done| < count
      && AcceptedFrom(entries, done)
      && (|done| == |entries|
          || AcceptedId(entries[|done|], IdsOf(done)).None?)
  {
    var seenIds: set<string> := {};
    var answerTypes: seq<AnswerType> := [];
    var i := 0;
    while i < count
      invariant 0 <= i <= count
      invariant |answerTypes| == i
      invariant seenIds == IdsOf(answerTypes)
      invariant AcceptedFrom(entries, answerTypes)
    {
      if i >= |entries| {
        return Failure(InputEnded(answerTypes));
      }
      var enName := entries[i].enName;
      var deName := entries[i].deName;
      var suggested := SuggestedId(enName);
      var accepted := AskAnswerTypeId(entries[i].idLines, suggested, seenIds);
      assert accepted == AcceptedId(entries[i], seenIds);
      if accepted.None? {
        return Failure(InputEnded(answerTypes));
      }
      var id := accepted.value;
      seenIds := seenIds + {id};
      var entry := AnswerType(id, enName, deName);
      AcceptedByExtend(AcceptedId, entries, answerTypes, entry);
      IdsOfAppend(answerTypes, entry);
      answerTypes := answerTypes + [entry];
      i := i + 1;
    }
    AcceptedIdsValidDistinct(entries, answerTypes);
    return Success(ProvidedAnswerTypes(answerTypes, |answerTypes|));
  }
}
