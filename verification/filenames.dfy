/** `validate_filename`: normalise an uploaded name (trim, unify separators,
    drop outer slashes) and refuse anything that could leave the project's
    staging directory, name a device, hide a directory or smuggle a secret. */
module Filenames {
  import opened Outcomes
  import opened Text
  import opened Paths
  import opened Identifiers
  import opened IgnoreMatcher

  // ------------------------------------------------------------ normalisation

  /** Trim whitespace, turn backslashes into slashes, then trim slashes. */
  function Normalize(raw: string): string
  {
    Strip(ReplaceChar(Strip(raw, Whitespace), '\\', '/'), Slash)
  }

  /** A normalised name has no backslash and no slash at either end. */
  lemma NormalizeShape(raw: string)
    ensures var f := Normalize(raw);
            '\\' !in f && (f == [] || (f[0] != '/' && f[|f| - 1] != '/'))
  {
    var trimmed := Strip(raw, Whitespace);
    var slashed := ReplaceChar(trimmed, '\\', '/');
    ReplaceCharRemoves(trimmed, '\\', '/');
    StripKeepsAbsent(slashed, Slash, '\\');
  }

  // --------------------------------------------------------- forbidden patterns

  /** Substrings refused anywhere in a filename, in the order they are checked. */
  const ForbiddenPatterns: seq<string> := ["..", "\0", "~", ":", "*", "?", "\"", "<", ">", "|"]

  predicate HasForbidden(s: string)
  {
    exists k :: 0 <= k < |ForbiddenPatterns| && Contains(s, ForbiddenPatterns[k])
  }

  /** The loop over the forbidden patterns from index `i`: the index of the
      first one (in list order) that occurs in `s`. */
  function FirstForbidden(s: string, i: nat): (r: Option<nat>)
    requires i <= |ForbiddenPatterns|
    ensures r.None? <==> forall k :: i <= k < |ForbiddenPatterns| ==> !Contains(s, ForbiddenPatterns[k])
    ensures r.Some? ==> i <= r.value < |ForbiddenPatterns| && Contains(s, ForbiddenPatterns[r.value])
    ensures r.Some? ==> forall k :: i <= k < r.value ==> !Contains(s, ForbiddenPatterns[k])
    decreases |ForbiddenPatterns| - i
  {
    if i == |ForbiddenPatterns| then None
    else if Contains(s, ForbiddenPatterns[i]) then Some(i)
    else FirstForbidden(s, i + 1)
  }

  // ------------------------------------------------------------------ shape

  /** `[a-zA-Z0-9._-]`, the class of the first character. */
  predicate IsNameChar(c: char)
  {
    IsIdChar(c) || c == '.'
  }

  /** `[a-zA-Z0-9._/-]`, the class of the following characters. */
  predicate IsPathChar(c: char)
  {
    IsNameChar(c) || c == '/'
  }

  /** `[a-zA-Z0-9._-][a-zA-Z0-9._/-]{0,254}` spanning the whole string. */
  predicate FullShape(s: string)
  {
    1 <= |s| <= 255 && IsNameChar(s[0]) && forall i :: 1 <= i < |s| ==> IsPathChar(s[i])
  }

  /** `VALID_FILENAME.match(s)` with the given reading of `$`. */
  predicate FilenameShape(s: string, anchor: Anchor)
  {
    || FullShape(s)
    || (anchor == PythonDollar && s != [] && s[|s| - 1] == '\n' && FullShape(s[..|s| - 1]))
  }

  // ------------------------------------------------------------- components

  /** Dotfiles that may be staged although they start with `.`. */
  const DotfileAllowlist: set<string> := {".gitignore", ".gitattributes"}

  /** A component naming a hidden directory: led by `.`, not an allowed
      dotfile, and with no further `.` (so `.env.example` passes). */
  predicate HiddenDir(part: string)
  {
    StartsWith(part, '.') && part !in DotfileAllowlist && '.' !in part[1..]
  }

  /** The rule one component breaks, checked in the order of the loop body. */
  function ComponentRule(part: string): Option<Rule>
  {
    if |part| == 0 then Some(EmptyComponent)
    else if Lower(part) in ReservedNames then Some(ReservedComponent(part))
    else if HiddenDir(part) then Some(HiddenComponent(part))
    else None
  }

  /** A component no rule objects to is a real name: neither empty nor `.`. */
  lemma ComponentOkSignificant(part: string)
    requires ComponentRule(part).None?
    ensures Significant(part)
  {
    if part == "." {
      assert part[1..] == [];
      assert HiddenDir(part);
    }
  }

  /** The loop over the components: the first rule broken, if any. */
  function FirstBadComponent(parts: seq<string>): (r: Option<Rule>)
    ensures r.None? <==> forall k :: 0 <= k < |parts| ==> ComponentRule(parts[k]).None?
    ensures r.Some? ==> exists k :: 0 <= k < |parts| && ComponentRule(parts[k]) == r
                          && forall m :: 0 <= m < k ==> ComponentRule(parts[m]).None?
    decreases |parts|
  {
    if parts == [] then None
    else if ComponentRule(parts[0]).Some? then ComponentRule(parts[0])
    else
      var r := FirstBadComponent(parts[1..]);
      assert forall k :: 1 <= k < |parts| ==> parts[k] == parts[1..][k - 1];
      r
  }

  /** `.env` names a hidden directory; `.env.example` and `.gitignore` do not. */
  lemma HiddenComponentExamples()
    ensures ComponentRule(".env") == Some(HiddenComponent(".env"))
    ensures ComponentRule(".env.example").None?
    ensures ComponentRule(".gitignore").None?
  {
    NotReservedWithOddChar(".env", 0);
    NotReservedWithOddChar(".env.example", 0);
    NotReservedWithOddChar(".gitignore", 0);
    assert ".env.example"[1..][3] == '.';
  }

  /** Device names are refused as whole components only: `COM1` is refused,
      `COM1.txt` passes. */
  lemma DeviceComponentExamples()
    ensures ComponentRule("COM1") == Some(ReservedComponent("COM1"))
    ensures ComponentRule("COM1.txt").None?
  {
    assert Lower("COM1") == "com" + ['1'];
    NotReservedWithOddChar("COM1.txt", 4);
  }

  // -------------------------------------------------------------- validator

  /** Everything the validator demands of a normalised name, independent of
      the order in which it checks. */
  predicate Acceptable(f: string, anchor: Anchor, rules: IgnoreRules)
  {
    && f != []
    && !HasForbidden(f)
    && FilenameShape(f, anchor)
    && (forall k :: 0 <= k < |Split(f, '/')| ==> ComponentRule(Split(f, '/')[k]).None?)
    && !MatchesIgnorePattern(rules, f)
  }

  /** The checks after normalisation, on a non-empty name, in source order:
      forbidden patterns (a security error naming the first in list order),
      then shape, then components, then the ignore list. */
  function CheckNormalized(f: string, anchor: Anchor, rules: IgnoreRules): (r: Result<string>)
    requires f != []
    ensures r.Ok? <==> Acceptable(f, anchor, rules)
    ensures r.Ok? ==> r.value == f
    ensures r.Err? && r.error.SecurityError? <==> HasForbidden(f)
    ensures r.Err? && r.error.SecurityError? ==>
              exists k :: 0 <= k < |ForbiddenPatterns| && r.error.rule == ForbiddenPattern(ForbiddenPatterns[k])
                          && Contains(f, ForbiddenPatterns[k])
                          && forall m :: 0 <= m < k ==> !Contains(f, ForbiddenPatterns[m])
    ensures r.Err? ==> r.error.ValidationError? || r.error.SecurityError?
  {
    match FirstForbidden(f, 0)
    case Some(k) => Err(SecurityError(ForbiddenPattern(ForbiddenPatterns[k])))
    case None =>
      if !FilenameShape(f, anchor) then Err(ValidationError(FilenameFormat))
      else match FirstBadComponent(Split(f, '/'))
        case Some(rule) => Err(ValidationError(rule))
        case None =>
          if MatchesIgnorePattern(rules, f) then Err(ValidationError(IgnoredPattern)) else Ok(f)
  }

  /** The empty string holds none of the forbidden patterns. */
  lemma EmptyHasNoForbidden()
    ensures !HasForbidden([])
  {
    forall k | 0 <= k < |ForbiddenPatterns|
      ensures !Contains([], ForbiddenPatterns[k])
    {
      assert |ForbiddenPatterns[k]| >= 1;
    }
  }

  /** `validate_filename`, with the `$` of its pattern read as `anchor`. */
  function SanitizeFilename(raw: string, anchor: Anchor, rules: IgnoreRules): (r: Result<string>)
    ensures r.Ok? <==> |raw| != 0 && Acceptable(Normalize(raw), anchor, rules)
    ensures r.Ok? ==> r.value == Normalize(raw)
    ensures r.Err? && r.error.SecurityError? <==> |raw| != 0 && HasForbidden(Normalize(raw))
    ensures r.Err? ==> r.error.ValidationError? || r.error.SecurityError?
  {
    if |raw| == 0 then Err(ValidationError(Required))
    else
      var f := Normalize(raw);
      if |f| == 0 then
        EmptyHasNoForbidden();
        Err(ValidationError(EmptyAfterNormalization))
      else CheckNormalized(f, anchor, rules)
  }

  /** The validator with `$` read as end of string, the reading the pattern
      evidently intends; the staging resolver uses this one. */
  function ValidateFilename(raw: string, rules: IgnoreRules): (r: Result<string>)
    ensures r.Ok? ==> FullShape(r.value) && r.value == Normalize(raw)
    ensures r.Ok? <==> |raw| != 0 && Acceptable(Normalize(raw), EndOfString, rules)
  {
    SanitizeFilename(raw, EndOfString, rules)
  }

  // -------------------------------------------------------------- properties

  /** A name that can only be used below a directory: relative, no trailing
      slash, no backslash or NUL, and every piece a real name other than `..`. */
  predicate SafeRelativeName(f: string)
  {
    && f != []
    && !IsAbsolute(f)
    && f[|f| - 1] != '/'
    && '\\' !in f
    && '\0' !in f
    && forall k :: 0 <= k < |Split(f, '/')| ==> Significant(Split(f, '/')[k]) && Split(f, '/')[k] != ".."
  }

  /** Every character of an accepted shape is from the pattern's classes,
      apart from the final newline Python's `$` lets through. */
  lemma ShapeChars(f: string, anchor: Anchor)
    requires FilenameShape(f, anchor)
    ensures forall i :: 0 <= i < |f| ==> IsPathChar(f[i]) || (i == |f| - 1 && f[i] == '\n')
    ensures IsNameChar(f[0])
  {
    if !FullShape(f) {
      var g := f[..|f| - 1];
      assert forall i :: 0 <= i < |g| ==> f[i] == g[i];
    }
  }

  /** Components that pass their rules, in a name free of `..`, are real
      names other than `..`. */
  lemma PiecesArePlainNames(f: string)
    requires !HasForbidden(f)
    requires forall k :: 0 <= k < |Split(f, '/')| ==> ComponentRule(Split(f, '/')[k]).None?
    ensures forall k :: 0 <= k < |Split(f, '/')| ==> Significant(Split(f, '/')[k]) && Split(f, '/')[k] != ".."
  {
    var parts := Split(f, '/');
    var dots := ForbiddenPatterns[0];
    SplitPiecesOccur(f, '/');
    forall k | 0 <= k < |parts|
      ensures Significant(parts[k]) && parts[k] != ".."
    {
      ComponentOkSignificant(parts[k]);
      assert parts[k] == dots ==> Contains(f, dots);
    }
  }

  /** A name of the right shape, free of forbidden patterns, whose components
      pass their rules and which does not end in a slash, is safe. */
  lemma AcceptableIsSafe(f: string, anchor: Anchor)
    requires FilenameShape(f, anchor) && !HasForbidden(f) && f[|f| - 1] != '/'
    requires forall k :: 0 <= k < |Split(f, '/')| ==> ComponentRule(Split(f, '/')[k]).None?
    ensures SafeRelativeName(f)
  {
    ShapeChars(f, anchor);
    assert '\0' !in f && '\\' !in f;
    PiecesArePlainNames(f);
  }

  /** What the validator accepts, under either reading of `$`, is safe to
      append to a directory. */
  lemma SanitizedIsSafe(raw: string, anchor: Anchor, rules: IgnoreRules)
    requires SanitizeFilename(raw, anchor, rules).Ok?
    ensures SafeRelativeName(SanitizeFilename(raw, anchor, rules).value)
  {
    NormalizeShape(raw);
    AcceptableIsSafe(Normalize(raw), anchor);
  }

  /** A name the ignore list catches is refused: with a format error unless
      it already holds a forbidden pattern. */
  lemma IgnoredNameRefused(raw: string, anchor: Anchor, rules: IgnoreRules)
    requires exists j :: 0 <= j < |rules.patterns| && PatternHits(rules, Normalize(raw), rules.patterns[j])
    ensures SanitizeFilename(raw, anchor, rules).Err?
    ensures !HasForbidden(Normalize(raw)) ==> SanitizeFilename(raw, anchor, rules).error.ValidationError?
  {
    MatchesIgnorePatternSpec(rules, Normalize(raw));
  }

  /** What `Acceptable` demands, spelled out: the pattern's characters, no
      forbidden pattern, every component non-empty, no device name and no
      hidden directory, and no ignore pattern hitting the name. */
  lemma AcceptableSpelledOut(f: string, rules: IgnoreRules)
    requires Acceptable(f, EndOfString, rules)
    ensures && FullShape(f) && !HasForbidden(f)
            && (forall k :: 0 <= k < |Split(f, '/')| ==>
                  Split(f, '/')[k] != [] && Lower(Split(f, '/')[k]) !in ReservedNames && !HiddenDir(Split(f, '/')[k]))
            && forall j :: 0 <= j < |rules.patterns| ==> !PatternHits(rules, f, rules.patterns[j])
  {
    MatchesIgnorePatternSpec(rules, f);
    forall k | 0 <= k < |Split(f, '/')|
      ensures Split(f, '/')[k] != [] && Lower(Split(f, '/')[k]) !in ReservedNames && !HiddenDir(Split(f, '/')[k])
    {
      assert ComponentRule(Split(f, '/')[k]).None?;
    }
  }

  /** A name that neither trimming nor separator unification changes is
      already normal. */
  lemma NormalizeUnchanged(f: string)
    requires Strip(f, Whitespace) == f && '\\' !in f && Strip(f, Slash) == f
    ensures Normalize(f) == f
  {
    ReplaceCharAbsent(f, '\\', '/');
  }

  /** A string of pattern characters with no slash at its end normalises to itself. */
  lemma NormalizeFixes(f: string)
    requires FullShape(f) && f[|f| - 1] != '/'
    ensures Normalize(f) == f
  {
    assert Strip(f, Whitespace) == f by {
      assert IsNameChar(f[0]) && (|f| == 1 || IsPathChar(f[|f| - 1]));
      StripUnchanged(f, Whitespace);
    }
    assert Strip(f, Slash) == f by {
      StripUnchanged(f, Slash);
    }
    assert '\\' !in f by {
      assert forall i :: 0 <= i < |f| ==> f[i] != '\\';
    }
    NormalizeUnchanged(f);
  }

  /** The validator looks only at the normalised form of a non-empty input. */
  lemma SameNormalForm(a: string, b: string, anchor: Anchor, rules: IgnoreRules)
    requires |a| != 0 && |b| != 0 && Normalize(a) == Normalize(b)
    ensures SanitizeFilename(a, anchor, rules) == SanitizeFilename(b, anchor, rules)
  {
  }

  /** A name that passed the corrected validator passes it again unchanged. */
  lemma ValidateFilenameIdempotent(raw: string, rules: IgnoreRules)
    requires ValidateFilename(raw, rules).Ok?
    ensures ValidateFilename(ValidateFilename(raw, rules).value, rules) == ValidateFilename(raw, rules)
  {
    var f := ValidateFilename(raw, rules).value;
    assert Normalize(f) == f by {
      NormalizeShape(raw);
      NormalizeFixes(f);
    }
    SameNormalForm(f, raw, EndOfString, rules);
  }
}
