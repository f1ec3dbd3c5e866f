/** How the `$` of the filename pattern is read. Python's `$` also matches
    just before one final newline, so the validator as written accepts
    `"a\n/"` as `"a\n"`, a name it then trims to `"a"` when given it again, and
    lets the device name `con` through as `"con\n"`. Reading `$` as the end of
    the string refuses both. */
module FilenameAnchor {
  import opened Outcomes
  import opened Text
  import opened Identifiers
  import opened IgnoreMatcher
  import opened Filenames

  /** An occurrence of a non-empty string starts with its first character. */
  lemma ContainsFirstChar(s: string, p: string)
    requires p != [] && Contains(s, p)
    ensures p[0] in s
  {
    var i :| 0 <= i <= |s| - |p| && p <= s[i..];
    assert s[i] == p[0];
  }

  /** A name made of letters, digits, `-`, `_`, `/` and newlines holds none
      of the forbidden patterns, each of which starts with another character. */
  lemma NoForbiddenIn(s: string)
    requires forall c :: c in s ==> IsIdChar(c) || c == '/' || c == '\n'
    ensures !HasForbidden(s)
  {
    forall k | 0 <= k < |ForbiddenPatterns|
      ensures !Contains(s, ForbiddenPatterns[k])
    {
      var p := ForbiddenPatterns[k];
      assert p != [] && !IsIdChar(p[0]) && p[0] != '/' && p[0] != '\n';
      if Contains(s, p) {
        ContainsFirstChar(s, p);
      }
    }
  }

  /** A one-component name with a final newline passes every check but the
      ignore list when `$` is read as Python reads it. */
  lemma AsWrittenAcceptsNewline(f: string, rules: IgnoreRules)
    requires |f| >= 2 && f[|f| - 1] == '\n' && '/' !in f
    requires FullShape(f[..|f| - 1]) && forall i :: 0 <= i < |f| - 1 ==> f[i] != '.'
    requires !MatchesIgnorePattern(rules, f)
    ensures CheckNormalized(f, PythonDollar, rules) == Ok(f)
  {
    assert forall c :: c in f ==> IsIdChar(c) || c == '/' || c == '\n' by {
      forall c | c in f
        ensures IsIdChar(c) || c == '/' || c == '\n'
      {
        var i :| 0 <= i < |f| && f[i] == c;
        if i < |f| - 1 {
          assert f[i] == f[..|f| - 1][i];
        }
      }
    }
    NoForbiddenIn(f);
    assert Split(f, '/') == [f];
    NotReservedWithOddChar(f, |f| - 1);
    assert ComponentRule(f).None?;
    assert FirstBadComponent([f]).None?;
  }

  /** A name that needs no trimming, followed by one slash, normalises to the name. */
  lemma NormalizeDropsFinalSlash(g: string)
    requires g != [] && !IsSpace(g[0]) && g[0] != '/' && g[|g| - 1] != '/' && '\\' !in g
    ensures Normalize(g + "/") == g
  {
    var s := g + "/";
    assert s[0] == g[0] && s[|s| - 1] == '/';
    StripUnchanged(s, Whitespace);
    assert '\\' !in s;
    assert ReplaceChar(s, '\\', '/') == s;
    assert LStrip(s, Slash) == s;
    assert s[..|s| - 1] == g;
    assert RStrip(s, Slash) == RStrip(g, Slash) == g;
  }

  /** A name with no space, slash or backslash at its ends, followed by a
      newline, normalises to the name: `strip()` takes the newline. */
  lemma NormalizeDropsFinalNewline(g: string)
    requires g != [] && !IsSpace(g[0]) && !IsSpace(g[|g| - 1]) && '\\' !in g
    requires g[0] != '/' && g[|g| - 1] != '/'
    ensures Normalize(g + "\n") == g
  {
    var s := g + "\n";
    assert s[0] == g[0];
    assert LStrip(s, Whitespace) == s;
    assert s[..|s| - 1] == g;
    assert RStrip(s, Whitespace) == RStrip(g, Whitespace) == g;
    assert ReplaceChar(g, '\\', '/') == g;
    StripUnchanged(g, Slash);
  }

  /** Past the empty checks the validator is the checks on the normalised name. */
  lemma SanitizeStages(raw: string, f: string, anchor: Anchor, rules: IgnoreRules)
    requires |raw| != 0 && Normalize(raw) == f && f != []
    ensures SanitizeFilename(raw, anchor, rules) == CheckNormalized(f, anchor, rules)
  {
  }

  /** A single short word passes every check but the ignore list. */
  lemma AcceptsShortWord(f: string, anchor: Anchor, rules: IgnoreRules)
    requires 1 <= |f| < 3 && forall i :: 0 <= i < |f| ==> 'a' <= f[i] <= 'z'
    requires !MatchesIgnorePattern(rules, f)
    ensures CheckNormalized(f, anchor, rules) == Ok(f)
  {
    NoForbiddenIn(f);
    assert FullShape(f);
    assert Split(f, '/') == [f];
    if Lower(f) in ReservedNames {
      ReservedNamesAreWords(Lower(f));
    }
    assert ComponentRule(f).None?;
    assert FirstBadComponent([f]).None?;
  }

  /** A word followed by a newline and a slash loses only the slash. */
  lemma SlashAfterNewlineDropped(g: string)
    requires FullShape(g) && forall i :: 0 <= i < |g| ==> IsIdChar(g[i])
    ensures Normalize(g + "\n" + "/") == g + "\n"
  {
    var f := g + "\n";
    assert f[0] == g[0] && f[|f| - 1] == '\n';
    NormalizeDropsFinalSlash(f);
  }

  /** As written, a word followed by a newline passes every check but the ignore list. */
  lemma AsWrittenAcceptsWordNewline(g: string, rules: IgnoreRules)
    requires FullShape(g) && forall i :: 0 <= i < |g| ==> IsIdChar(g[i])
    requires !MatchesIgnorePattern(rules, g + "\n")
    ensures CheckNormalized(g + "\n", PythonDollar, rules) == Ok(g + "\n")
  {
    var f := g + "\n";
    assert f[..|f| - 1] == g;
    AsWrittenAcceptsNewline(f, rules);
  }

  /** As written, a word followed by a newline and a slash is accepted with
      the newline kept: the stored name ends in a newline. */
  lemma AsWrittenKeepsNewline(g: string, rules: IgnoreRules)
    requires FullShape(g) && forall i :: 0 <= i < |g| ==> IsIdChar(g[i])
    requires !MatchesIgnorePattern(rules, g + "\n")
    ensures SanitizeFilename(g + "\n" + "/", PythonDollar, rules) == Ok(g + "\n")
  {
    SlashAfterNewlineDropped(g);
    AsWrittenAcceptsWordNewline(g, rules);
    SanitizeStages(g + "\n" + "/", g + "\n", PythonDollar, rules);
  }

  /** As written: `"a\n/"` is accepted as `"a\n"`. */
  lemma AsWrittenAcceptsNewlineExample(rules: IgnoreRules)
    requires !MatchesIgnorePattern(rules, "a\n")
    ensures SanitizeFilename("a\n/", PythonDollar, rules) == Ok("a\n")
  {
    assert "a" + "\n" == "a\n";
    assert "a\n" + "/" == "a\n/";
    AsWrittenKeepsNewline("a", rules);
  }

  /** A short lower-case word followed by a newline is accepted as the word:
      `strip()` takes the newline. */
  lemma WordNewlineTrimmed(g: string, anchor: Anchor, rules: IgnoreRules)
    requires 1 <= |g| < 3 && forall i :: 0 <= i < |g| ==> 'a' <= g[i] <= 'z'
    requires !MatchesIgnorePattern(rules, g)
    ensures SanitizeFilename(g + "\n", anchor, rules) == Ok(g)
  {
    NormalizeDropsFinalNewline(g);
    AcceptsShortWord(g, anchor, rules);
    SanitizeStages(g + "\n", g, anchor, rules);
  }

  /** `"a\n"` given again is trimmed to `"a"`. */
  lemma NewlineTrimmedOnSecondPass(rules: IgnoreRules)
    requires !MatchesIgnorePattern(rules, "a")
    ensures SanitizeFilename("a\n", PythonDollar, rules) == Ok("a")
  {
    assert "a" + "\n" == "a\n";
    WordNewlineTrimmed("a", PythonDollar, rules);
  }

  /** As written the validator is not idempotent: its result for `"a\n/"`,
      validated again, gives a different name. */
  lemma AsWrittenNotIdempotent(rules: IgnoreRules)
    requires !MatchesIgnorePattern(rules, "a\n") && !MatchesIgnorePattern(rules, "a")
    ensures var first := SanitizeFilename("a\n/", PythonDollar, rules);
            first.Ok? && SanitizeFilename(first.value, PythonDollar, rules) != first
  {
    AsWrittenAcceptsNewlineExample(rules);
    NewlineTrimmedOnSecondPass(rules);
  }

  /** As written: the device name `con` passes as `"con\n"` from `"con\n/"`. */
  lemma AsWrittenAcceptsDeviceName(rules: IgnoreRules)
    requires !MatchesIgnorePattern(rules, "con\n")
    ensures SanitizeFilename("con\n/", PythonDollar, rules) == Ok("con\n")
  {
    assert "con" + "\n" == "con\n";
    assert "con\n" + "/" == "con\n/";
    AsWrittenKeepsNewline("con", rules);
  }

  /** The pattern's classes hold no newline. */
  lemma FullShapeHasNoNewline(f: string)
    requires FullShape(f)
    ensures '\n' !in f
  {
    assert forall i :: 0 <= i < |f| ==> IsPathChar(f[i]);
  }

  /** Read as end of string, `$` refuses any normalised name holding a newline. */
  lemma CorrectedRefusesNewline(raw: string, rules: IgnoreRules)
    requires '\n' in Normalize(raw)
    ensures ValidateFilename(raw, rules).Err?
  {
    if ValidateFilename(raw, rules).Ok? {
      FullShapeHasNoNewline(Normalize(raw));
    }
  }

  /** The corrected validator refuses a word followed by a newline and a slash. */
  lemma CorrectedRefusesWordNewline(g: string, rules: IgnoreRules)
    requires FullShape(g) && forall i :: 0 <= i < |g| ==> IsIdChar(g[i])
    ensures ValidateFilename(g + "\n" + "/", rules).Err?
  {
    SlashAfterNewlineDropped(g);
    assert (g + "\n")[|g|] == '\n';
    CorrectedRefusesNewline(g + "\n" + "/", rules);
  }

  /** The corrected validator refuses `"a\n/"`, which slips through as written. */
  lemma CorrectedRefusesNewlineExample(rules: IgnoreRules)
    ensures ValidateFilename("a\n/", rules).Err?
  {
    assert "a" + "\n" + "/" == "a\n/";
    CorrectedRefusesWordNewline("a", rules);
  }

  /** The two readings of `$` differ only on a normalised name ending in a
      newline: on every other input the validator as written and the
      corrected one give the same result, error included. */
  lemma AnchorsAgree(raw: string, rules: IgnoreRules)
    requires var f := Normalize(raw); f == [] || f[|f| - 1] != '\n'
    ensures SanitizeFilename(raw, PythonDollar, rules) == ValidateFilename(raw, rules)
  {
  }

  /** As written, the validator is idempotent on every result that does not
      end in a newline. */
  lemma AsWrittenIdempotentWithoutNewline(raw: string, rules: IgnoreRules)
    ensures var first := SanitizeFilename(raw, PythonDollar, rules);
            first.Ok? && first.value[|first.value| - 1] != '\n' ==>
              SanitizeFilename(first.value, PythonDollar, rules) == first
  {
    var first := SanitizeFilename(raw, PythonDollar, rules);
    if first.Ok? && first.value[|first.value| - 1] != '\n' {
      var f := first.value;
      AnchorsAgree(raw, rules);
      ValidateFilenameIdempotent(raw, rules);
      assert Normalize(f) == f;
      AnchorsAgree(f, rules);
    }
  }
}
