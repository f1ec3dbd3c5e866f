/** The screen against the ingestion ignore list (secrets, credentials, build
    output). The list and the glob matcher belong to other components, so both
    are parameters: `fnmatch(name, pattern)` stands for `fnmatch.fnmatch`. */
module IgnoreMatcher {
  import opened Paths

  datatype IgnoreRules = IgnoreRules(patterns: seq<string>, fnmatch: (string, string) -> bool)

  /** What it means for one pattern to catch a filename: it matches one of the
      path's parts, the whole filename, or the final component. */
  predicate PatternHits(rules: IgnoreRules, filename: string, pattern: string)
  {
    var parts := PathParts(filename);
    || (exists k :: 0 <= k < |parts| && rules.fnmatch(parts[k], pattern))
    || rules.fnmatch(filename, pattern)
    || rules.fnmatch(Name(filename), pattern)
  }

  /** The inner loop over `path.parts` for one pattern. */
  function AnyPartMatches(parts: seq<string>, pattern: string, fnmatch: (string, string) -> bool): bool
    decreases |parts|
  {
    if parts == [] then false
    else if fnmatch(parts[0], pattern) then true
    else AnyPartMatches(parts[1..], pattern, fnmatch)
  }

  /** The inner loop returns true exactly when some part matches. */
  lemma {:induction false} AnyPartMatchesSpec(parts: seq<string>, pattern: string, fnmatch: (string, string) -> bool)
    ensures AnyPartMatches(parts, pattern, fnmatch) <==> exists k :: 0 <= k < |parts| && fnmatch(parts[k], pattern)
    decreases |parts|
  {
    if parts != [] {
      AnyPartMatchesSpec(parts[1..], pattern, fnmatch);
      assert forall k :: 1 <= k < |parts| ==> parts[k] == parts[1..][k - 1];
    }
  }

  /** The outer loop over the patterns, from index `i` on. */
  function MatchesFrom(rules: IgnoreRules, filename: string, i: nat): bool
    requires i <= |rules.patterns|
    decreases |rules.patterns| - i
  {
    if i == |rules.patterns| then false
    else
      var pattern := rules.patterns[i];
      if AnyPartMatches(PathParts(filename), pattern, rules.fnmatch) then true
      else if rules.fnmatch(filename, pattern) then true
      else if rules.fnmatch(Name(filename), pattern) then true
      else MatchesFrom(rules, filename, i + 1)
  }

  /** The outer loop from `i` returns true exactly when a pattern from `i` on hits. */
  lemma {:induction false} MatchesFromSpec(rules: IgnoreRules, filename: string, i: nat)
    requires i <= |rules.patterns|
    ensures MatchesFrom(rules, filename, i)
            <==> exists j :: i <= j < |rules.patterns| && PatternHits(rules, filename, rules.patterns[j])
    decreases |rules.patterns| - i
  {
    if i < |rules.patterns| {
      AnyPartMatchesSpec(PathParts(filename), rules.patterns[i], rules.fnmatch);
      MatchesFromSpec(rules, filename, i + 1);
    }
  }

  /** `_matches_ignore_pattern`. */
  function MatchesIgnorePattern(rules: IgnoreRules, filename: string): bool
  {
    MatchesFrom(rules, filename, 0)
  }

  /** The screen catches a filename exactly when some pattern of the list hits it. */
  lemma MatchesIgnorePatternSpec(rules: IgnoreRules, filename: string)
    ensures MatchesIgnorePattern(rules, filename)
            <==> exists j :: 0 <= j < |rules.patterns| && PatternHits(rules, filename, rules.patterns[j])
  {
    MatchesFromSpec(rules, filename, 0);
  }

  /** The final component is one of the parts whenever there is a component,
      so the third test of the loop only adds something for names without any. */
  lemma NameIsAPart(filename: string)
    requires Components(filename) != []
    ensures Name(filename) in PathParts(filename)
  {
    var c := Components(filename);
    assert Name(filename) == c[|c| - 1];
    if IsAbsolute(filename) {
      assert PathParts(filename)[|c|] == c[|c| - 1];
    }
  }

  /** For a filename with components, the name test is redundant: a pattern
      hits exactly when it matches a part or the whole filename. */
  lemma NameTestRedundant(rules: IgnoreRules, filename: string, pattern: string)
    requires Components(filename) != []
    ensures PatternHits(rules, filename, pattern)
            <==> (exists k :: 0 <= k < |PathParts(filename)| && rules.fnmatch(PathParts(filename)[k], pattern))
                 || rules.fnmatch(filename, pattern)
  {
    NameIsAPart(filename);
    var parts := PathParts(filename);
    var k :| 0 <= k < |parts| && parts[k] == Name(filename);
    assert rules.fnmatch(Name(filename), pattern) ==> rules.fnmatch(parts[k], pattern);
  }

  /** Extending the ignore list never lets a filename through that the shorter list caught. */
  lemma MoreRulesCatchMore(rules: IgnoreRules, extra: seq<string>, filename: string)
    requires MatchesIgnorePattern(rules, filename)
    ensures MatchesIgnorePattern(IgnoreRules(rules.patterns + extra, rules.fnmatch), filename)
  {
    MatchesIgnorePatternSpec(rules, filename);
    MatchesIgnorePatternSpec(IgnoreRules(rules.patterns + extra, rules.fnmatch), filename);
    var j :| 0 <= j < |rules.patterns| && PatternHits(rules, filename, rules.patterns[j]);
    var more := IgnoreRules(rules.patterns + extra, rules.fnmatch);
    assert more.patterns[j] == rules.patterns[j];
    assert PatternHits(more, filename, more.patterns[j]);
  }
}
