/** The identifier validators of the staging guard: project id, vendor id,
    GitHub repository URL and snapshot type. Each trims its input and either
    returns the trusted value or a format error. */
module Identifiers {
  import opened Outcomes
  import opened Text

  /** Windows device names (con, prn, aux, nul, com1-com9, lpt1-lpt9); a
      project id or path component equal to one of them, case-insensitively,
      is refused. */
  const ReservedNames: set<string> :=
    {"con", "prn", "aux", "nul"}
    + (set d: char | '1' <= d <= '9' :: "com" + [d])
    + (set d: char | '1' <= d <= '9' :: "lpt" + [d])

  /** Every device name is spelt with letters and digits only. */
  lemma ReservedNamesAreWords(n: string)
    requires n in ReservedNames
    ensures |n| >= 3 && forall i :: 0 <= i < |n| ==> IsIdChar(n[i])
  {
  }

  /** A string containing a character outside `[A-Za-z0-9_-]` is no device name,
      whatever its case. */
  lemma NotReservedWithOddChar(s: string, i: nat)
    requires i < |s| && !IsIdChar(s[i])
    ensures Lower(s) !in ReservedNames
  {
    assert Lower(s)[i] == s[i];
    if Lower(s) in ReservedNames {
      ReservedNamesAreWords(Lower(s));
    }
  }

  // ---------------------------------------------------------------- project id

  /** The character class `[a-zA-Z0-9_-]`. */
  predicate IsIdChar(c: char)
  {
    'a' <= c <= 'z' || 'A' <= c <= 'Z' || '0' <= c <= '9' || c == '_' || c == '-'
  }

  /** `[a-zA-Z0-9_-]{3,64}` matched against the whole string. */
  predicate IdShape(s: string)
  {
    3 <= |s| <= 64 && forall i :: 0 <= i < |s| ==> IsIdChar(s[i])
  }

  /** `VALID_PROJECT_ID.match(s)` as Python evaluates it: the closing `$` also
      accepts one trailing newline. */
  predicate MatchesProjectIdPattern(s: string)
  {
    IdShape(s) || (s != [] && s[|s| - 1] == '\n' && IdShape(s[..|s| - 1]))
  }

  /** A stripped string cannot end in a newline, so Python's `$` adds nothing
      here; and the pattern already excludes a leading `.`. */
  lemma StrippedIdPattern(id: string)
    requires id == [] || !IsSpace(id[|id| - 1])
    ensures MatchesProjectIdPattern(id) <==> IdShape(id)
    ensures IdShape(id) ==> id[0] != '.'
  {
    if id != [] {
      assert id[|id| - 1] != '\n';
    }
  }

  /** What a valid project id is, stated independently of the check order: a
      3-64 character name over `[A-Za-z0-9_-]`, not led by `-`, not a device name. */
  predicate IsProjectId(s: string)
  {
    IdShape(s) && s[0] != '-' && Lower(s) !in ReservedNames
  }

  /** `validate_project_id`. */
  function ValidateProjectId(raw: string): (r: Result<string>)
    ensures r.Ok? <==> |raw| != 0 && IsProjectId(Strip(raw, Whitespace))
    ensures r.Ok? ==> r.value == Strip(raw, Whitespace)
    ensures r.Err? ==> r.error.ValidationError?
    ensures r == Err(ValidationError(ProjectIdLeadingChar)) ==> StartsWith(Strip(raw, Whitespace), '-')
  {
    if |raw| == 0 then Err(ValidationError(Required))
    else
      var id := Strip(raw, Whitespace);
      StrippedIdPattern(id);
      if !MatchesProjectIdPattern(id) then Err(ValidationError(ProjectIdFormat))
      else if StartsWith(id, '-') || StartsWith(id, '.') then Err(ValidationError(ProjectIdLeadingChar))
      else if Lower(id) in ReservedNames then Err(ValidationError(ProjectIdReserved))
      else Ok(id)
  }

  /** A non-empty name with no `/` and no `.`: a single directory name. */
  predicate PlainName(id: string)
  {
    id != "" && forall i :: 0 <= i < |id| ==> id[i] != '/' && id[i] != '.'
  }

  /** A valid project id is a single plain directory name: no `/`, no `.`. */
  lemma ProjectIdIsPlainName(raw: string)
    requires ValidateProjectId(raw).Ok?
    ensures PlainName(ValidateProjectId(raw).value)
  {
  }

  lemma ProjectIdIdempotent(raw: string)
    requires ValidateProjectId(raw).Ok?
    ensures ValidateProjectId(ValidateProjectId(raw).value) == ValidateProjectId(raw)
  {
    var id := ValidateProjectId(raw).value;
    assert !(id[0] in Whitespace) && !(id[|id| - 1] in Whitespace) by {
      assert IsIdChar(id[0]) && IsIdChar(id[|id| - 1]);
    }
    StripUnchanged(id, Whitespace);
  }

  lemma ProjectIdExamples()
    ensures ValidateProjectId("ab") == Err(ValidationError(ProjectIdFormat))
    ensures ValidateProjectId(" abc ") == Ok("abc")
    ensures ValidateProjectId("-abc") == Err(ValidationError(ProjectIdLeadingChar))
    ensures ValidateProjectId("NUL") == Err(ValidationError(ProjectIdReserved))
  {
    StripUnchanged("ab", Whitespace);
    StripUnchanged("-abc", Whitespace);
    StripUnchanged("NUL", Whitespace);
    assert LStrip(" abc ", Whitespace) == "abc ";
    assert RStrip("abc ", Whitespace) == "abc";
    assert Lower("NUL") == "nul";
  }

  // ----------------------------------------------------------------- vendor id

  /** `validate_vendor_id`: any trimmed text of 1-64 characters. */
  function ValidateVendorId(raw: string): (r: Result<string>)
    ensures r.Ok? <==> 1 <= |Strip(raw, Whitespace)| <= 64
    ensures r.Ok? ==> r.value == Strip(raw, Whitespace)
    ensures r.Ok? ==> r.value[0] !in Whitespace && r.value[|r.value| - 1] !in Whitespace
    ensures r.Err? ==> r.error.ValidationError?
  {
    if |raw| == 0 then Err(ValidationError(Required))
    else
      var id := Strip(raw, Whitespace);
      if |id| < 1 || |id| > 64 then Err(ValidationError(VendorIdLength))
      else Ok(id)
  }

  lemma VendorIdIdempotent(raw: string)
    requires ValidateVendorId(raw).Ok?
    ensures ValidateVendorId(ValidateVendorId(raw).value) == ValidateVendorId(raw)
  {
    StripUnchanged(ValidateVendorId(raw).value, Whitespace);
  }

  // ------------------------------------------------------------ repository URL

  const GitHubPrefix: string := "https://github.com/"

  /** What is left after deleting every occurrence of the prefix and the trailing slashes. */
  function RepoPath(url: string): string
  {
    RStrip(RemoveAll(url, GitHubPrefix), Slash)
  }

  /** `len(parts) >= 2` for `parts = RepoPath(url).split('/')`. */
  predicate HasOwnerAndRepo(url: string)
  {
    |Split(RepoPath(url), '/')| >= 2
  }

  /** The checks of `validate_repo_url` after trimming. */
  function CheckRepoUrl(url: string): (r: Result<string>)
    ensures r.Ok? <==> GitHubPrefix <= url && '/' in RepoPath(url)
    ensures r.Ok? ==> r.value == url
    ensures !(GitHubPrefix <= url) ==> r == Err(ValidationError(NotGitHubUrl))
    ensures r.Err? ==> r.error.ValidationError?
  {
    if !(GitHubPrefix <= url) then Err(ValidationError(NotGitHubUrl))
    else if !HasOwnerAndRepo(url) then Err(ValidationError(MissingOwnerOrRepo))
    else Ok(url)
  }

  /** `validate_repo_url`: the trimmed URL, provided it starts with the GitHub
      prefix and what remains names an owner and a repository. */
  function ValidateRepoUrl(raw: string): (r: Result<string>)
    ensures r.Ok? <==> |raw| != 0 && GitHubPrefix <= Strip(raw, Whitespace)
                       && '/' in RepoPath(Strip(raw, Whitespace))
    ensures r.Ok? ==> r.value == Strip(raw, Whitespace)
    ensures |raw| != 0 && !(GitHubPrefix <= Strip(raw, Whitespace)) ==> r == Err(ValidationError(NotGitHubUrl))
    ensures r.Err? ==> r.error.ValidationError?
  {
    if |raw| == 0 then Err(ValidationError(Required)) else CheckRepoUrl(Strip(raw, Whitespace))
  }

  /** The prefix followed by a tail that does not end in whitespace is already trimmed. */
  lemma PrefixedUrlTrimmed(tail: string)
    requires tail == [] || !IsSpace(tail[|tail| - 1])
    ensures Strip(GitHubPrefix + tail, Whitespace) == GitHubPrefix + tail
  {
    var url := GitHubPrefix + tail;
    assert url[0] == 'h';
    assert url[|url| - 1] == if tail == [] then '/' else tail[|tail| - 1];
    StripUnchanged(url, Whitespace);
  }

  /** Without a `:` in the tail the prefix cannot recur, so deleting it leaves the tail. */
  lemma PrefixedUrlPath(tail: string)
    requires ':' !in tail
    ensures GitHubPrefix <= GitHubPrefix + tail
    ensures RepoPath(GitHubPrefix + tail) == RStrip(tail, Slash)
  {
    assert GitHubPrefix[5] == ':';
    RemoveAllLeading(GitHubPrefix, tail, 5);
  }

  /** For a URL made of the GitHub prefix and a tail holding no `:`, the checks
      accept exactly when the tail, once trailing slashes are dropped, still
      contains a `/` separating owner from repository. */
  lemma RepoUrlAcceptance(url: string, tail: string)
    requires url == GitHubPrefix + tail
    requires ':' !in tail
    ensures CheckRepoUrl(url).Ok? <==> '/' in RStrip(tail, Slash)
  {
    PrefixedUrlPath(tail);
  }

  /** The owner segment may be empty: `https://github.com//repo` passes,
      since only the number of pieces is counted. */
  lemma EmptyOwnerAccepted(repo: string)
    requires repo != [] && ':' !in repo && repo[|repo| - 1] != '/'
    ensures CheckRepoUrl(GitHubPrefix + "/" + repo) == Ok(GitHubPrefix + "/" + repo)
  {
    var tail := "/" + repo;
    assert GitHubPrefix + "/" + repo == GitHubPrefix + tail;
    assert ':' !in tail;
    assert tail[|tail| - 1] == repo[|repo| - 1];
    assert RStrip(tail, Slash) == tail;
    assert tail[0] == '/';
    RepoUrlAcceptance(GitHubPrefix + tail, tail);
  }

  /** A tail without any `/` names no repository and is refused. */
  lemma OwnerOnlyRefused(owner: string)
    requires ':' !in owner && '/' !in owner
    ensures CheckRepoUrl(GitHubPrefix + owner) == Err(ValidationError(MissingOwnerOrRepo))
  {
    RepoUrlAcceptance(GitHubPrefix + owner, owner);
    RStripDropsOnly(owner, Slash);
  }

  /** On an already trimmed, non-empty URL the validator is just the checks. */
  lemma TrimmedRepoUrl(url: string)
    requires |url| != 0 && Strip(url, Whitespace) == url
    ensures ValidateRepoUrl(url) == CheckRepoUrl(url)
  {
  }

  /** `https://github.com/<owner>/<repo>`, with no `:` in either name and a
      repository name that ends in neither whitespace nor `/`, is accepted as given. */
  lemma OwnerRepoUrlAccepted(owner: string, repo: string)
    requires ':' !in owner && ':' !in repo
    requires repo != [] && !IsSpace(repo[|repo| - 1]) && repo[|repo| - 1] != '/'
    ensures ValidateRepoUrl(GitHubPrefix + owner + "/" + repo) == Ok(GitHubPrefix + owner + "/" + repo)
  {
    var tail := owner + "/" + repo;
    var url := GitHubPrefix + tail;
    assert GitHubPrefix + owner + "/" + repo == url;
    assert tail[|tail| - 1] == repo[|repo| - 1];
    PrefixedUrlTrimmed(tail);
    TrimmedRepoUrl(url);
    assert ':' !in tail;
    assert RStrip(tail, Slash) == tail;
    assert tail[|owner|] == '/';
    RepoUrlAcceptance(url, tail);
  }

  // ------------------------------------------------------------- snapshot type

  /** The twelve snapshot categories, listed. */
  const SnapshotTypeNames: seq<string> := [
    "file_metadata", "imports", "exports", "functions", "classes",
    "connections", "repo_metadata", "security", "quality",
    "doc_metadata", "doc_content", "doc_analysis"
  ]

  /** The twelve snapshot categories, as the set the validator tests against. */
  const SnapshotTypes: set<string> := set i | 0 <= i < |SnapshotTypeNames| :: SnapshotTypeNames[i]

  /** `validate_snapshot_type`: trimmed, lower-cased, and then a member of the twelve. */
  function ValidateSnapshotType(raw: string): (r: Result<string>)
    ensures r.Ok? <==> |raw| != 0 && Lower(Strip(raw, Whitespace)) in SnapshotTypes
    ensures r.Ok? ==> r.value in SnapshotTypes && r.value == Lower(Strip(raw, Whitespace))
    ensures r.Err? ==> r.error == ValidationError(UnknownSnapshotType) || r.error == ValidationError(Required)
  {
    if |raw| == 0 then Err(ValidationError(Required))
    else
      var t := Lower(Strip(raw, Whitespace));
      if t !in SnapshotTypes then Err(ValidationError(UnknownSnapshotType)) else Ok(t)
  }

  /** Every category is spelt with lower-case letters and `_` only. */
  lemma SnapshotTypesAreLowerWords(t: string)
    requires t in SnapshotTypes
    ensures t != "" && forall i :: 0 <= i < |t| ==> 'a' <= t[i] <= 'z' || t[i] == '_'
  {
  }

  lemma SnapshotTypeIdempotent(raw: string)
    requires ValidateSnapshotType(raw).Ok?
    ensures ValidateSnapshotType(ValidateSnapshotType(raw).value) == ValidateSnapshotType(raw)
  {
    var t := ValidateSnapshotType(raw).value;
    SnapshotTypesAreLowerWords(t);
    StripUnchanged(t, Whitespace);
    assert Lower(t) == t;
  }

  lemma SnapshotTypeExamples()
    ensures ValidateSnapshotType("Security") == Ok("security")
  {
    StripUnchanged("Security", Whitespace);
    assert Lower("Security") == "security";
    assert SnapshotTypeNames[7] == "security";
  }

  lemma UnknownSnapshotTypeExample()
    ensures ValidateSnapshotType("bogus") == Err(ValidationError(UnknownSnapshotType))
  {
    StripUnchanged("bogus", Whitespace);
    assert Lower("bogus") == "bogus";
    assert forall i :: 0 <= i < |SnapshotTypeNames| ==> |SnapshotTypeNames[i]| != 5;
  }
}
