/** `get_safe_staging_path`: the only place where an uploaded name becomes a
    filesystem path. The filesystem is a parameter: how it resolves a path
    (following links, or raising) and which paths are symbolic links. */
module StagingPaths {
  import opened Outcomes
  import opened Text
  import opened Paths
  import opened Identifiers
  import opened IgnoreMatcher
  import opened Filenames

  /** What `Path.resolve()` does with one path. */
  datatype Resolution = Resolved(path: Path) | RaisedOSError | RaisedValueError

  /** What `Path.is_symlink()` does with one path. It answers `False` for the
      errors it swallows (a missing entry, a non-directory on the way, a bad
      descriptor, a link loop) and raises any other OSError, such as a
      permission error on a directory of the path. */
  datatype LinkAnswer = Link | NotLink | LstatRaised

  /** The two filesystem queries the resolver makes: `resolve()` and `is_symlink()`. */
  datatype FileSystem = FileSystem(resolve: Path -> Resolution, isSymlink: Path -> LinkAnswer)

  /** `data_dir / "staging"`. */
  function StagingRoot(dataDir: Path): Path
  {
    dataDir + ["staging"]
  }

  /** `staging_root / project_id`. */
  function ProjectDir(dataDir: Path, projectId: string): Path
  {
    Join(StagingRoot(dataDir), projectId)
  }

  // ------------------------------------------------------------ symlink walk

  /** The walk visits `target[..k]`: the loop starts at `target`, climbs one
      parent per round, stops on reaching `root` (which can only be the
      prefix of `target` of length `|root|`), and stops after reaching the
      anchor (the anchor itself is only visited when it is the start). */
  predicate OnWalk(target: Path, root: Path, k: int)
  {
    && 0 <= k <= |target|
    && !(k <= |root| <= |target| && root <= target)
    && (k == |target| || k >= 1)
  }

  /** The closed form above says that no path passed between the start and
      `target[..k]` is the staging root. */
  lemma OnWalkMeaning(target: Path, root: Path, k: int)
    requires 0 <= k <= |target|
    ensures !(k <= |root| <= |target| && root <= target)
            <==> forall j :: k <= j <= |target| ==> target[..j] != root
  {
    if k <= |root| <= |target| && root <= target {
      assert target[..|root|] == root;
    }
  }

  /** The loop over `current` and its parents: the first path at which it
      leaves early, being a symbolic link or one whose query raises, if any. */
  function SymlinkOnWalk(fs: FileSystem, current: Path, root: Path): Option<Path>
    decreases |current|
  {
    if current == root then None
    else if fs.isSymlink(current) != NotLink then Some(current)
    else
      var next := Parent(current);
      if next == Parent(next) then None else SymlinkOnWalk(fs, next, root)
  }

  /** Below the start, the walk from `current` is the walk from its parent. */
  lemma OnWalkStep(current: Path, root: Path, k: int)
    requires |current| >= 2 && current != root && k < |current|
    ensures OnWalk(current, root, k) <==> OnWalk(Parent(current), root, k)
  {
    var next := Parent(current);
    assert next == current[..|current| - 1];
    if |root| < |current| {
      assert root <= current <==> root <= next;
    }
  }

  /** What the walk from `current` promises: it stops early exactly when one
      of the paths it visits is a link or raises, and it stops at such a path. */
  ghost predicate WalkReportsLinks(fs: FileSystem, current: Path, root: Path)
  {
    var r := SymlinkOnWalk(fs, current, root);
    && (r.None? <==> forall k :: OnWalk(current, root, k) ==> fs.isSymlink(current[..k]) == NotLink)
    && (r.Some? ==> exists k :: OnWalk(current, root, k) && r.value == current[..k] && fs.isSymlink(r.value) != NotLink)
  }

  /** A walk starting at the staging root visits nothing and reports nothing. */
  lemma WalkFromRoot(fs: FileSystem, current: Path, root: Path)
    requires current == root
    ensures WalkReportsLinks(fs, current, root)
  {
    assert current[..|current|] == current;
  }

  /** A walk starting at a link, or at a path whose query raises, stops there. */
  lemma WalkFromLink(fs: FileSystem, current: Path, root: Path)
    requires current != root && fs.isSymlink(current) != NotLink
    ensures WalkReportsLinks(fs, current, root)
  {
    assert current[..|current|] == current;
    assert OnWalk(current, root, |current|);
  }

  /** From a path of at most one component the walk visits only the start. */
  lemma WalkFromTop(fs: FileSystem, current: Path, root: Path)
    requires current != root && fs.isSymlink(current) == NotLink && |current| <= 1
    ensures WalkReportsLinks(fs, current, root)
  {
    assert current[..|current|] == current;
    assert forall k :: OnWalk(current, root, k) ==> k == |current|;
  }

  /** Past a start that is no link, the walk is the walk from the parent. */
  lemma WalkFromParent(fs: FileSystem, current: Path, root: Path)
    requires current != root && fs.isSymlink(current) == NotLink && |current| >= 2
    requires WalkReportsLinks(fs, Parent(current), root)
    ensures WalkReportsLinks(fs, current, root)
  {
    var next := Parent(current);
    assert current[..|current|] == current;
    assert next == current[..|current| - 1];
    forall k | 0 <= k < |current|
      ensures OnWalk(current, root, k) <==> OnWalk(next, root, k)
    {
      OnWalkStep(current, root, k);
    }
    assert forall k :: 0 <= k <= |next| ==> next[..k] == current[..k];
  }

  /** The walk stops early exactly when one of the paths it visits is a link
      or raises, and where it stops is such a visited path. */
  lemma {:induction false} SymlinkOnWalkSpec(fs: FileSystem, current: Path, root: Path)
    ensures var r := SymlinkOnWalk(fs, current, root);
            && (r.None? <==> forall k :: OnWalk(current, root, k) ==> fs.isSymlink(current[..k]) == NotLink)
            && (r.Some? ==> exists k :: OnWalk(current, root, k) && r.value == current[..k] && fs.isSymlink(r.value) != NotLink)
    decreases |current|
  {
    if current == root {
      WalkFromRoot(fs, current, root);
    } else if fs.isSymlink(current) != NotLink {
      WalkFromLink(fs, current, root);
    } else if |current| <= 1 {
      WalkFromTop(fs, current, root);
    } else {
      SymlinkOnWalkSpec(fs, Parent(current), root);
      WalkFromParent(fs, current, root);
    }
  }

  /** For a target below the staging root, the walk visits exactly the paths
      strictly between the root and the target, the target included. */
  lemma WalkBelowRoot(target: Path, root: Path, k: int)
    requires root < target
    ensures OnWalk(target, root, k) <==> |root| < k <= |target|
  {
    if |root| < k <= |target| {
      forall j | k <= j <= |target|
        ensures target[..j] != root
      {
      }
    }
    if 0 <= k <= |root| {
      assert target[..|root|] == root;
    }
  }

  /** Some path the walk visits has a query that raises. */
  ghost predicate WalkRaises(fs: FileSystem, target: Path, root: Path)
  {
    exists k :: OnWalk(target, root, k) && fs.isSymlink(target[..k]) == LstatRaised
  }

  // ---------------------------------------------------------------- resolver

  /** The resolver's steps after both inputs are validated: resolve the
      target, require it below the resolved project directory, then walk the
      unresolved target up to the staging root refusing symbolic links. */
  function ResolveTarget(fs: FileSystem, dataDir: Path, id: string, name: string): (r: Result<Path>)
    ensures r.Ok? ==>
              var dir := ProjectDir(dataDir, id);
              && fs.resolve(Join(dir, name)) == Resolved(r.value)
              && fs.resolve(dir).Resolved?
              && fs.resolve(dir).path <= r.value
    ensures r.Err? ==>
              || r.error.SecurityError?
              || (&& r.error == UncaughtOSError
                  && (|| fs.resolve(ProjectDir(dataDir, id)) == RaisedOSError
                      || WalkRaises(fs, Join(ProjectDir(dataDir, id), name), StagingRoot(dataDir))))
  {
    var root := StagingRoot(dataDir);
    var dir := ProjectDir(dataDir, id);
    var target := Join(dir, name);
    match fs.resolve(target)
    case RaisedOSError => Err(SecurityError(InvalidPath))
    case RaisedValueError => Err(SecurityError(InvalidPath))
    case Resolved(resolved) =>
      match fs.resolve(dir)
      case RaisedOSError => Err(UncaughtOSError)
      case RaisedValueError => Err(SecurityError(PathTraversal))
      case Resolved(base) =>
        if RelativeTo(resolved, base).None? then Err(SecurityError(PathTraversal))
        else match SymlinkOnWalk(fs, target, root)
          case Some(stop) =>
            SymlinkOnWalkSpec(fs, target, root);
            if fs.isSymlink(stop) == Link then Err(SecurityError(SymlinkInPath(stop))) else Err(UncaughtOSError)
          case None => Ok(resolved)
  }

  /** `get_safe_staging_path`, with the filename validated by the corrected
      validator. The filesystem and the data directory are parameters. */
  function GetSafeStagingPath(fs: FileSystem, dataDir: Path, projectId: string, filename: string,
                              rules: IgnoreRules): (r: Result<Path>)
    ensures ValidateProjectId(projectId).Err? ==> r == Err(ValidateProjectId(projectId).error)
    ensures ValidateProjectId(projectId).Ok? && ValidateFilename(filename, rules).Err? ==>
              r == Err(ValidateFilename(filename, rules).error)
    ensures r.Ok? ==> ValidateProjectId(projectId).Ok? && ValidateFilename(filename, rules).Ok?
    ensures r.Ok? ==>
              var dir := ProjectDir(dataDir, ValidateProjectId(projectId).value);
              && fs.resolve(Join(dir, ValidateFilename(filename, rules).value)) == Resolved(r.value)
              && fs.resolve(dir).Resolved?
              && fs.resolve(dir).path <= r.value
  {
    var id :- ValidateProjectId(projectId);
    var name :- ValidateFilename(filename, rules);
    ResolveTarget(fs, dataDir, id, name)
  }

  // -------------------------------------------------------------- properties

  /** A plain name is one direct child of the staging root. */
  lemma ProjectDirIsChild(dataDir: Path, id: string)
    requires PlainName(id)
    ensures ProjectDir(dataDir, id) == StagingRoot(dataDir) + [id] && Plain([id])
  {
    assert '/' !in id;
    assert Split(id, '/') == [id];
    assert id != "." && id != ".." by {
      assert id[0] != '.';
    }
  }

  /** Two different valid project ids name sibling directories: neither lies
      inside the other. */
  lemma ProjectDirsIsolated(dataDir: Path, p1: string, p2: string)
    requires ValidateProjectId(p1).Ok? && ValidateProjectId(p2).Ok?
    requires ValidateProjectId(p1).value != ValidateProjectId(p2).value
    ensures var d1 := ProjectDir(dataDir, ValidateProjectId(p1).value);
            var d2 := ProjectDir(dataDir, ValidateProjectId(p2).value);
            !(d1 <= d2) && !(d2 <= d1)
  {
    var id1 := ValidateProjectId(p1).value;
    var id2 := ValidateProjectId(p2).value;
    ProjectIdIsPlainName(p1);
    ProjectIdIsPlainName(p2);
    ProjectDirIsChild(dataDir, id1);
    ProjectDirIsChild(dataDir, id2);
    var root := StagingRoot(dataDir);
    assert ProjectDir(dataDir, id1)[|root|] == id1;
    assert ProjectDir(dataDir, id2)[|root|] == id2;
  }

  /** A safe name joins below a directory as its pieces, none of which is
      `.` or `..`: before any link is followed, the path already stays below
      the directory. */
  lemma TargetBelowDir(dir: Path, name: string)
    requires SafeRelativeName(name)
    ensures && Join(dir, name) == dir + Split(name, '/')
            && Plain(Split(name, '/'))
            && Lexical(dir, Split(name, '/')) == Join(dir, name)
  {
    var pieces := Split(name, '/');
    JoinPlain(dir, name);
    LexicalPlain(dir, pieces);
  }

  /** The validated filename stays below the project directory it is joined to. */
  lemma ValidatedTargetBelowDir(dir: Path, raw: string, rules: IgnoreRules)
    requires ValidateFilename(raw, rules).Ok?
    ensures var name := ValidateFilename(raw, rules).value;
            && Join(dir, name) == dir + Split(name, '/')
            && Plain(Split(name, '/'))
            && Lexical(dir, Split(name, '/')) == Join(dir, name)
  {
    SanitizedIsSafe(raw, EndOfString, rules);
    TargetBelowDir(dir, ValidateFilename(raw, rules).value);
  }

  /** A plain project id and a safe name give the target the staging root,
      the id, then the pieces of the name. */
  lemma TargetPieces(dataDir: Path, id: string, name: string)
    requires PlainName(id) && SafeRelativeName(name)
    ensures Join(ProjectDir(dataDir, id), name) == StagingRoot(dataDir) + ([id] + Split(name, '/'))
  {
    ProjectDirIsChild(dataDir, id);
    TargetBelowDir(ProjectDir(dataDir, id), name);
  }

  /** A plain project id and a safe name give a target strictly below the
      staging root. */
  lemma TargetBelowRoot(dataDir: Path, id: string, name: string)
    requires PlainName(id) && SafeRelativeName(name)
    ensures StagingRoot(dataDir) < Join(ProjectDir(dataDir, id), name)
  {
    TargetPieces(dataDir, id, name);
  }

  /** The checks after validation accept only when the walk stops nowhere. */
  lemma AcceptedOnlyOnCleanWalk(fs: FileSystem, dataDir: Path, id: string, name: string)
    ensures ResolveTarget(fs, dataDir, id, name).Ok? ==>
              SymlinkOnWalk(fs, Join(ProjectDir(dataDir, id), name), StagingRoot(dataDir)).None?
  {
  }

  /** A link strictly between the staging root and the target, or at the
      target, is found by the walk. */
  lemma WalkFindsLink(fs: FileSystem, target: Path, root: Path, k: int)
    requires root < target && |root| < k <= |target| && fs.isSymlink(target[..k]) != NotLink
    ensures SymlinkOnWalk(fs, target, root).Some?
  {
    WalkBelowRoot(target, root, k);
    SymlinkOnWalkSpec(fs, target, root);
  }

  /** The walk visits every path from the target up to and including the
      project directory, so a link anywhere there is refused. */
  lemma LinkBelowRootRefused(fs: FileSystem, dataDir: Path, id: string, name: string, k: int)
    requires PlainName(id) && SafeRelativeName(name)
    requires var target := Join(ProjectDir(dataDir, id), name);
             |StagingRoot(dataDir)| < k <= |target| && fs.isSymlink(target[..k]) != NotLink
    ensures ResolveTarget(fs, dataDir, id, name).Err?
  {
    TargetBelowRoot(dataDir, id, name);
    WalkFindsLink(fs, Join(ProjectDir(dataDir, id), name), StagingRoot(dataDir), k);
    AcceptedOnlyOnCleanWalk(fs, dataDir, id, name);
  }

  /** A symbolic link, or a path whose link query raises, at the project
      directory or anywhere between it and the target, is always refused. */
  lemma SymlinkBelowRootRejected(fs: FileSystem, dataDir: Path, projectId: string, filename: string,
                                 rules: IgnoreRules, k: int)
    ensures ValidateProjectId(projectId).Ok? && ValidateFilename(filename, rules).Ok? ==>
              var target := Join(ProjectDir(dataDir, ValidateProjectId(projectId).value),
                                 ValidateFilename(filename, rules).value);
              |StagingRoot(dataDir)| < k <= |target| && fs.isSymlink(target[..k]) != NotLink ==>
                GetSafeStagingPath(fs, dataDir, projectId, filename, rules).Err?
  {
    if ValidateProjectId(projectId).Ok? && ValidateFilename(filename, rules).Ok? {
      var target := Join(ProjectDir(dataDir, ValidateProjectId(projectId).value),
                         ValidateFilename(filename, rules).value);
      if |StagingRoot(dataDir)| < k <= |target| && fs.isSymlink(target[..k]) != NotLink {
        ProjectIdIsPlainName(projectId);
        SanitizedIsSafe(filename, EndOfString, rules);
        LinkBelowRootRefused(fs, dataDir, ValidateProjectId(projectId).value, ValidateFilename(filename, rules).value, k);
      }
    }
  }

  /** A symbolic link at the project directory itself is always refused. */
  lemma SymlinkedProjectDirRejected(fs: FileSystem, dataDir: Path, projectId: string, filename: string,
                                    rules: IgnoreRules)
    ensures ValidateProjectId(projectId).Ok? && ValidateFilename(filename, rules).Ok?
            && fs.isSymlink(ProjectDir(dataDir, ValidateProjectId(projectId).value)) == Link ==>
              GetSafeStagingPath(fs, dataDir, projectId, filename, rules).Err?
  {
    if ValidateProjectId(projectId).Ok? && ValidateFilename(filename, rules).Ok?
       && fs.isSymlink(ProjectDir(dataDir, ValidateProjectId(projectId).value)) == Link {
      var id := ValidateProjectId(projectId).value;
      var dir := ProjectDir(dataDir, id);
      var target := Join(dir, ValidateFilename(filename, rules).value);
      ProjectIdIsPlainName(projectId);
      ProjectDirIsChild(dataDir, id);
      ValidatedTargetBelowDir(dir, filename, rules);
      assert target[..|dir|] == dir;
      SymlinkBelowRootRejected(fs, dataDir, projectId, filename, rules, |dir|);
    }
  }

  /** An accepted path passed every check of the walk: no path it visits is a link. */
  lemma AcceptedWalkIsLinkFree(fs: FileSystem, dataDir: Path, projectId: string, filename: string,
                               rules: IgnoreRules, k: int)
    ensures GetSafeStagingPath(fs, dataDir, projectId, filename, rules).Ok? ==>
              var target := Join(ProjectDir(dataDir, ValidateProjectId(projectId).value),
                                 ValidateFilename(filename, rules).value);
              OnWalk(target, StagingRoot(dataDir), k) ==> fs.isSymlink(target[..k]) == NotLink
  {
    if GetSafeStagingPath(fs, dataDir, projectId, filename, rules).Ok? {
      var id := ValidateProjectId(projectId).value;
      var name := ValidateFilename(filename, rules).value;
      assert ResolveTarget(fs, dataDir, id, name).Ok?;
      AcceptedOnlyOnCleanWalk(fs, dataDir, id, name);
      SymlinkOnWalkSpec(fs, Join(ProjectDir(dataDir, id), name), StagingRoot(dataDir));
    }
  }

  /** A filesystem without links, on which `resolve()` only tidies `.` and `..`. */
  ghost predicate LinkFree(fs: FileSystem)
  {
    && (forall p :: fs.resolve(p) == Resolved(Lexical([], p)))
    && (forall p :: fs.isSymlink(p) == NotLink)
  }

  /** On a filesystem without links the walk finds nothing. */
  lemma LinkFreeWalkClean(fs: FileSystem, target: Path, root: Path)
    requires LinkFree(fs)
    ensures SymlinkOnWalk(fs, target, root).None?
  {
    SymlinkOnWalkSpec(fs, target, root);
  }

  /** Under a plain data directory, the project directory is plain. */
  lemma PlainProjectDir(dataDir: Path, id: string)
    requires Plain(dataDir) && PlainName(id)
    ensures Plain(ProjectDir(dataDir, id))
  {
    ProjectDirIsChild(dataDir, id);
    assert ProjectDir(dataDir, id) == dataDir + ["staging", id];
  }

  /** Under a plain data directory, the project directory and the target are
      their own lexical resolutions. */
  lemma PlainTargetResolvesToItself(dataDir: Path, id: string, name: string)
    requires Plain(dataDir) && PlainName(id) && SafeRelativeName(name)
    ensures Lexical([], ProjectDir(dataDir, id)) == ProjectDir(dataDir, id)
    ensures Lexical([], Join(ProjectDir(dataDir, id), name)) == Join(ProjectDir(dataDir, id), name)
  {
    var dir := ProjectDir(dataDir, id);
    PlainProjectDir(dataDir, id);
    TargetBelowDir(dir, name);
    LexicalPlain([], dir);
    LexicalAppend([], dir, Split(name, '/'));
  }

  /** On a filesystem without links and under a plain data directory, the
      checks after validation accept, as the project directory followed by
      the pieces of the name. */
  lemma LinkFreeResolves(fs: FileSystem, dataDir: Path, id: string, name: string)
    requires LinkFree(fs) && Plain(dataDir)
    requires PlainName(id) && SafeRelativeName(name)
    ensures ResolveTarget(fs, dataDir, id, name) == Ok(ProjectDir(dataDir, id) + Split(name, '/'))
  {
    var dir := ProjectDir(dataDir, id);
    var target := Join(dir, name);
    TargetBelowDir(dir, name);
    PlainTargetResolvesToItself(dataDir, id, name);
    assert fs.resolve(dir) == Resolved(dir);
    assert fs.resolve(target) == Resolved(target);
    LinkFreeWalkClean(fs, target, StagingRoot(dataDir));
  }

  /** On a filesystem without links and under a plain data directory, every
      pair of valid inputs is accepted. */
  lemma LinkFreeAccepts(fs: FileSystem, dataDir: Path, projectId: string, filename: string,
                        rules: IgnoreRules)
    requires LinkFree(fs) && Plain(dataDir)
    ensures ValidateProjectId(projectId).Ok? && ValidateFilename(filename, rules).Ok? ==>
              var dir := ProjectDir(dataDir, ValidateProjectId(projectId).value);
              GetSafeStagingPath(fs, dataDir, projectId, filename, rules)
                == Ok(dir + Split(ValidateFilename(filename, rules).value, '/'))
  {
    if ValidateProjectId(projectId).Ok? && ValidateFilename(filename, rules).Ok? {
      ProjectIdIsPlainName(projectId);
      SanitizedIsSafe(filename, EndOfString, rules);
      LinkFreeResolves(fs, dataDir, ValidateProjectId(projectId).value, ValidateFilename(filename, rules).value);
    }
  }

  /** A target that cannot be resolved is refused as an invalid path, before
      anything else is looked at. */
  lemma UnresolvableTargetRefused(fs: FileSystem, dataDir: Path, id: string, name: string)
    requires !fs.resolve(Join(ProjectDir(dataDir, id), name)).Resolved?
    ensures ResolveTarget(fs, dataDir, id, name) == Err(SecurityError(InvalidPath))
  {
  }

  /** A target whose resolution leaves the resolved project directory is
      refused as traversal, whatever the walk would find. */
  lemma EscapingTargetRefused(fs: FileSystem, dataDir: Path, id: string, name: string,
                              resolved: Path, base: Path)
    requires fs.resolve(Join(ProjectDir(dataDir, id), name)) == Resolved(resolved)
    requires fs.resolve(ProjectDir(dataDir, id)) == Resolved(base)
    requires !(base <= resolved)
    ensures ResolveTarget(fs, dataDir, id, name) == Err(SecurityError(PathTraversal))
  {
  }

  /** The converse of the resolver's contract: a target that resolves inside
      the resolved project directory, on a walk meeting no link and no
      failing query, is accepted as its resolution, whatever links lie above
      the staging root. */
  lemma ContainedCleanTargetAccepted(fs: FileSystem, dataDir: Path, id: string, name: string)
    ensures var dir := ProjectDir(dataDir, id);
            var target := Join(dir, name);
            && fs.resolve(target).Resolved? && fs.resolve(dir).Resolved?
            && fs.resolve(dir).path <= fs.resolve(target).path
            && (forall k :: OnWalk(target, StagingRoot(dataDir), k) ==> fs.isSymlink(target[..k]) == NotLink)
            ==> ResolveTarget(fs, dataDir, id, name) == Ok(fs.resolve(target).path)
  {
    SymlinkOnWalkSpec(fs, Join(ProjectDir(dataDir, id), name), StagingRoot(dataDir));
  }

  /** The same for the whole guard: valid inputs whose target resolves inside
      the resolved project directory, on a clean walk, are accepted. */
  lemma ContainedCleanPathAccepted(fs: FileSystem, dataDir: Path, projectId: string, filename: string,
                                   rules: IgnoreRules)
    ensures ValidateProjectId(projectId).Ok? && ValidateFilename(filename, rules).Ok? ==>
              var dir := ProjectDir(dataDir, ValidateProjectId(projectId).value);
              var target := Join(dir, ValidateFilename(filename, rules).value);
              && fs.resolve(target).Resolved? && fs.resolve(dir).Resolved?
              && fs.resolve(dir).path <= fs.resolve(target).path
              && (forall k :: OnWalk(target, StagingRoot(dataDir), k) ==> fs.isSymlink(target[..k]) == NotLink)
              ==> GetSafeStagingPath(fs, dataDir, projectId, filename, rules) == Ok(fs.resolve(target).path)
  {
    if ValidateProjectId(projectId).Ok? && ValidateFilename(filename, rules).Ok? {
      ContainedCleanTargetAccepted(fs, dataDir, ValidateProjectId(projectId).value, ValidateFilename(filename, rules).value);
    }
  }

  /** A query on the target itself that raises escapes as an OSError once the
      target has passed the containment check: the walk starts at the target. */
  lemma LstatFailureEscapes(fs: FileSystem, dataDir: Path, id: string, name: string)
    requires PlainName(id) && SafeRelativeName(name)
    ensures var dir := ProjectDir(dataDir, id);
            var target := Join(dir, name);
            && fs.resolve(target).Resolved? && fs.resolve(dir).Resolved?
            && fs.resolve(dir).path <= fs.resolve(target).path
            && fs.isSymlink(target) == LstatRaised
            ==> ResolveTarget(fs, dataDir, id, name) == Err(UncaughtOSError)
  {
    TargetBelowRoot(dataDir, id, name);
  }

  /** Every refusal is of the format or the security kind, except an OSError
      that escapes unconverted: from resolving the project directory, or from
      a symbolic-link query on the walk. */
  lemma ErrorKinds(fs: FileSystem, dataDir: Path, projectId: string, filename: string, rules: IgnoreRules)
    ensures var r := GetSafeStagingPath(fs, dataDir, projectId, filename, rules);
            r.Err? ==>
              || r.error.ValidationError? || r.error.SecurityError?
              || (&& r.error.UncaughtOSError?
                  && ValidateProjectId(projectId).Ok? && ValidateFilename(filename, rules).Ok?
                  && var dir := ProjectDir(dataDir, ValidateProjectId(projectId).value);
                     || fs.resolve(dir) == RaisedOSError
                     || WalkRaises(fs, Join(dir, ValidateFilename(filename, rules).value), StagingRoot(dataDir)))
  {
  }
}
