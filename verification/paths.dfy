/** The slice of `pathlib` the guard uses: splitting a string into parts,
    `/`-joining, `.parent`, `.name`, `relative_to`, plus the lexical resolution
    that `resolve()` performs on a filesystem without symbolic links. */
module Paths {
  import opened Outcomes
  import opened Text

  /** A path as its components below the anchor (`/` for an absolute path). */
  type Path = seq<string>

  /** `Path.parent`: the anchor is its own parent. */
  function Parent(p: Path): (r: Path)
    ensures p == [] ==> r == []
    ensures p != [] ==> r + [p[|p| - 1]] == p
  {
    if p == [] then [] else p[..|p| - 1]
  }

  predicate IsAbsolute(s: string)
  {
    s != [] && s[0] == '/'
  }

  /** A component pathlib keeps: neither empty (from `//` or an end slash) nor `.`. */
  predicate Significant(c: string)
  {
    c != "" && c != "."
  }

  function KeepSignificant(pieces: seq<string>): (r: seq<string>)
    ensures forall i :: 0 <= i < |r| ==> Significant(r[i])
    ensures forall i :: 0 <= i < |r| ==> r[i] in pieces
    ensures (forall i :: 0 <= i < |pieces| ==> Significant(pieces[i])) ==> r == pieces
  {
    if pieces == [] then []
    else if Significant(pieces[0]) then [pieces[0]] + KeepSignificant(pieces[1..])
    else KeepSignificant(pieces[1..])
  }

  /** The components of `s` below its root, as pathlib parses them. */
  function Components(s: string): seq<string>
  {
    KeepSignificant(Split(s, '/'))
  }

  /** The root part of an absolute path: POSIX keeps exactly two leading slashes. */
  function RootPart(s: string): string
    requires IsAbsolute(s)
  {
    if |s| >= 2 && s[1] == '/' && (|s| == 2 || s[2] != '/') then "//" else "/"
  }

  /** `PurePosixPath(s).parts`. */
  function PathParts(s: string): seq<string>
  {
    if IsAbsolute(s) then [RootPart(s)] + Components(s) else Components(s)
  }

  /** `PurePosixPath(s).name`: the last component, or "" when there is none. */
  function Name(s: string): string
  {
    var c := Components(s);
    if c == [] then "" else c[|c| - 1]
  }

  /** `base / s`: an absolute `s` replaces `base`. */
  function Join(base: Path, s: string): Path
  {
    if IsAbsolute(s) then Components(s) else base + Components(s)
  }

  /** A relative name whose every slash-separated piece is significant joins
      as exactly those pieces, and pathlib parses it into them. */
  lemma JoinPlain(base: Path, s: string)
    requires !IsAbsolute(s)
    requires forall i :: 0 <= i < |Split(s, '/')| ==> Significant(Split(s, '/')[i])
    ensures Join(base, s) == base + Split(s, '/')
    ensures PathParts(s) == Split(s, '/')
  {
  }

  /** `p.relative_to(base)`: succeeds exactly when `base` is a component-wise prefix of `p`. */
  function RelativeTo(p: Path, base: Path): (r: Option<Path>)
    ensures r.Some? <==> base <= p
    ensures r.Some? ==> base + r.value == p
  {
    if base <= p then Some(p[|base|..]) else None
  }

  /** One step of lexical resolution: `.` stays, `..` climbs, anything else descends. */
  function Step(p: Path, c: string): Path
  {
    if c == "." then p else if c == ".." then Parent(p) else p + [c]
  }

  /** Resolving the components `rel` from `base` on a filesystem without links. */
  function Lexical(base: Path, rel: seq<string>): Path
    decreases |rel|
  {
    if rel == [] then base else Lexical(Step(base, rel[0]), rel[1..])
  }

  /** A component sequence with no `.` and no `..`. */
  predicate Plain(rel: seq<string>)
  {
    forall i :: 0 <= i < |rel| ==> rel[i] != "." && rel[i] != ".."
  }

  /** Plain components never climb: resolution just appends them. */
  lemma {:induction false} LexicalPlain(base: Path, rel: seq<string>)
    requires Plain(rel)
    ensures Lexical(base, rel) == base + rel
    decreases |rel|
  {
    if rel != [] {
      assert Plain(rel[1..]) by {
        forall i | 0 <= i < |rel[1..]|
          ensures rel[1..][i] != "." && rel[1..][i] != ".."
        {
          assert rel[1..][i] == rel[i + 1];
        }
      }
      LexicalPlain(base + [rel[0]], rel[1..]);
      assert base + [rel[0]] + rel[1..] == base + rel;
    }
  }

  /** Resolving a concatenation is resolving its halves in turn. */
  lemma {:induction false} LexicalAppend(base: Path, a: seq<string>, b: seq<string>)
    ensures Lexical(base, a + b) == Lexical(Lexical(base, a), b)
    decreases |a|
  {
    if a != [] {
      assert (a + b)[0] == a[0];
      assert (a + b)[1..] == a[1..] + b;
      LexicalAppend(Step(base, a[0]), a[1..], b);
    } else {
      assert a + b == b;
    }
  }

  /** Without the `..` rule a relative name could leave its base directory. */
  lemma DotDotLeavesBase()
    ensures var base := ["data", "staging", "p1"];
            var r := Lexical(base, ["..", "p2", "x"]);
            r == ["data", "staging", "p2", "x"] && !(base <= r)
  {
    var base := ["data", "staging", "p1"];
    assert Lexical(base, ["..", "p2", "x"]) == Lexical(["data", "staging"], ["p2", "x"]);
  }
}
