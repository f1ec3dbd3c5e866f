/** The few Python `str` operations the guard relies on, over `seq<char>`:
    `strip`/`lstrip`/`rstrip`, ASCII `lower`, `replace`, `in`, `split` and
    `startswith`. */
module Text {

  /** How a regular expression ending in `$` is anchored. Python's `$` without
      MULTILINE matches at the end of the string and also just before one final
      newline; `EndOfString` is the stricter `\Z`. */
  datatype Anchor = PythonDollar | EndOfString

  /** Python's `str.isspace()`: the ASCII controls TAB..CR and FS..US, space,
      NEL, NO-BREAK SPACE and the Unicode space separators. */
  predicate IsSpace(c: char)
  {
    || c == ' ' || '\t' <= c <= '\r' || '\U{001C}' <= c <= '\U{001F}'
    || c == '\U{0085}' || c == '\U{00A0}' || c == '\U{1680}' || '\U{2000}' <= c <= '\U{200A}'
    || c == '\U{2028}' || c == '\U{2029}' || c == '\U{202F}' || c == '\U{205F}' || c == '\U{3000}'
  }

  /** What `str.strip()` with no argument removes. */
  const Whitespace: set<char> := set c: char | IsSpace(c)

  /** The argument of `strip('/')` and `rstrip('/')`. */
  const Slash: set<char> := {'/'}

  /** `s.lstrip(cs)`: the longest suffix of `s` that does not start with a char of `cs`. */
  function LStrip(s: string, cs: set<char>): (r: string)
    ensures |r| <= |s|
    ensures r == [] || r[0] !in cs
    decreases |s|
  {
    if s != [] && s[0] in cs then LStrip(s[1..], cs) else s
  }

  /** What `lstrip` keeps is a suffix of its input. */
  lemma {:induction false} LStripSuffix(s: string, cs: set<char>)
    ensures LStrip(s, cs) == s[|s| - |LStrip(s, cs)|..]
    decreases |s|
  {
    if s != [] && s[0] in cs {
      LStripSuffix(s[1..], cs);
      assert s[1..][|s| - 1 - |LStrip(s, cs)|..] == s[|s| - |LStrip(s, cs)|..];
    }
  }

  /** What `lstrip` drops all belongs to `cs`. */
  lemma {:induction false} LStripDropsOnly(s: string, cs: set<char>)
    ensures forall i :: 0 <= i < |s| - |LStrip(s, cs)| ==> s[i] in cs
    decreases |s|
  {
    if s != [] && s[0] in cs {
      LStripDropsOnly(s[1..], cs);
    }
  }

  /** `s.rstrip(cs)`: the longest prefix of `s` that does not end with a char of `cs`. */
  function RStrip(s: string, cs: set<char>): (r: string)
    ensures |r| <= |s|
    ensures r == [] || r[|r| - 1] !in cs
    decreases |s|
  {
    if s != [] && s[|s| - 1] in cs then RStrip(s[..|s| - 1], cs) else s
  }

  /** What `rstrip` keeps is a prefix of its input. */
  lemma {:induction false} RStripPrefix(s: string, cs: set<char>)
    ensures RStrip(s, cs) == s[..|RStrip(s, cs)|]
    decreases |s|
  {
    if s != [] && s[|s| - 1] in cs {
      RStripPrefix(s[..|s| - 1], cs);
    }
  }

  /** What `rstrip` drops all belongs to `cs`. */
  lemma {:induction false} RStripDropsOnly(s: string, cs: set<char>)
    ensures forall i :: |RStrip(s, cs)| <= i < |s| ==> s[i] in cs
    decreases |s|
  {
    if s != [] && s[|s| - 1] in cs {
      RStripDropsOnly(s[..|s| - 1], cs);
    }
  }

  /** `s.strip(cs)`: both ends trimmed. */
  function Strip(s: string, cs: set<char>): (r: string)
    ensures r == [] || (r[0] !in cs && r[|r| - 1] !in cs)
  {
    var l := LStrip(s, cs);
    RStripPrefix(l, cs);
    RStrip(l, cs)
  }

  /** Stripping never introduces a character. */
  lemma StripKeepsAbsent(s: string, cs: set<char>, c: char)
    requires c !in s
    ensures c !in Strip(s, cs)
  {
    var l := LStrip(s, cs);
    LStripSuffix(s, cs);
    assert c !in l by {
      assert forall i :: 0 <= i < |l| ==> l[i] == s[|s| - |l| + i];
    }
    var r := RStrip(l, cs);
    RStripPrefix(l, cs);
    assert forall i :: 0 <= i < |r| ==> r[i] == l[i];
  }

  /** Stripping a string whose ends are already outside `cs` changes nothing. */
  lemma StripUnchanged(s: string, cs: set<char>)
    requires s == [] || (s[0] !in cs && s[|s| - 1] !in cs)
    ensures Strip(s, cs) == s
  {
  }

  lemma StripIdempotent(s: string, cs: set<char>)
    ensures Strip(Strip(s, cs), cs) == Strip(s, cs)
  {
    StripUnchanged(Strip(s, cs), cs);
  }

  /** ASCII `str.lower()` on one character. */
  function LowerChar(c: char): char
  {
    if 'A' <= c <= 'Z' then (c as int + 32) as char else c
  }

  function Lower(s: string): (r: string)
    ensures |r| == |s|
    ensures forall i :: 0 <= i < |s| ==> r[i] == LowerChar(s[i])
  {
    seq(|s|, i requires 0 <= i < |s| => LowerChar(s[i]))
  }

  /** `s.replace(target, replacement)` for single characters. */
  function ReplaceChar(s: string, target: char, replacement: char): (r: string)
    ensures |r| == |s|
    ensures forall i :: 0 <= i < |s| ==> r[i] == (if s[i] == target then replacement else s[i])
  {
    seq(|s|, i requires 0 <= i < |s| => if s[i] == target then replacement else s[i])
  }

  /** Replacing a character by a different one leaves none of it behind. */
  lemma ReplaceCharRemoves(s: string, target: char, replacement: char)
    requires target != replacement
    ensures target !in ReplaceChar(s, target, replacement)
  {
    var r := ReplaceChar(s, target, replacement);
    assert forall i :: 0 <= i < |r| ==> r[i] != target;
  }

  /** Replacing a character that does not occur changes nothing. */
  lemma ReplaceCharAbsent(s: string, target: char, replacement: char)
    requires target !in s
    ensures ReplaceChar(s, target, replacement) == s
  {
    assert forall i :: 0 <= i < |s| ==> s[i] != target;
  }

  /** `s.startswith(c)` for a one-character prefix. */
  predicate StartsWith(s: string, c: char)
  {
    |s| > 0 && s[0] == c
  }

  /** Python's `p in s` for strings: `p` occurs somewhere in `s`. */
  predicate Contains(s: string, p: string)
  {
    exists i :: 0 <= i <= |s| - |p| && p <= s[i..]
  }

  /** An occurrence in a suffix is an occurrence in the whole. */
  lemma ContainsSuffix(s: string, k: nat, p: string)
    requires k <= |s| && Contains(s[k..], p)
    ensures Contains(s, p)
  {
    var i :| 0 <= i <= |s[k..]| - |p| && p <= s[k..][i..];
    assert s[k..][i..] == s[k + i..];
  }

  function IndexOf(s: string, c: char): (i: nat)
    requires c in s
    ensures i < |s| && s[i] == c && c !in s[..i]
  {
    if s[0] == c then 0
    else
      assert c in s[1..];
      var j := IndexOf(s[1..], c);
      assert s[..j + 1] == [s[0]] + s[1..][..j];
      j + 1
  }

  /** `sep.join(parts)`. */
  function JoinWith(parts: seq<string>, sep: char): string
    requires |parts| >= 1
    decreases |parts|
  {
    if |parts| == 1 then parts[0] else parts[0] + [sep] + JoinWith(parts[1..], sep)
  }

  /** `s.split(sep)`: the separator-free pieces of `s`, in order. */
  function Split(s: string, sep: char): (parts: seq<string>)
    ensures |parts| >= 1
    ensures forall i :: 0 <= i < |parts| ==> sep !in parts[i]
    ensures |parts| == 1 <==> sep !in s
    decreases |s|
  {
    if sep !in s then [s]
    else
      var i := IndexOf(s, sep);
      [s[..i]] + Split(s[i + 1..], sep)
  }

  /** `sep.join(s.split(sep)) == s`: splitting loses nothing. */
  lemma {:induction false} SplitJoin(s: string, sep: char)
    ensures JoinWith(Split(s, sep), sep) == s
    decreases |s|
  {
    if sep in s {
      var i := IndexOf(s, sep);
      var rest := Split(s[i + 1..], sep);
      var parts := Split(s, sep);
      assert parts == [s[..i]] + rest;
      assert parts[1..] == rest;
      SplitJoin(s[i + 1..], sep);
      assert s == s[..i] + [sep] + s[i + 1..];
    }
  }

  /** Each piece of a split occurs in the split string. */
  lemma {:induction false} SplitPiecesOccur(s: string, sep: char)
    ensures forall i :: 0 <= i < |Split(s, sep)| ==> Contains(s, Split(s, sep)[i])
    decreases |s|
  {
    if sep in s {
      var k := IndexOf(s, sep);
      var parts := Split(s, sep);
      var rest := Split(s[k + 1..], sep);
      assert parts == [s[..k]] + rest;
      SplitPiecesOccur(s[k + 1..], sep);
      forall i | 0 <= i < |parts|
        ensures Contains(s, parts[i])
      {
        if i == 0 {
          assert parts[0] <= s[0..];
        } else {
          assert parts[i] == rest[i - 1];
          ContainsSuffix(s, k + 1, parts[i]);
        }
      }
    } else {
      assert Split(s, sep)[0] <= s[0..];
    }
  }

  /** `s.replace(pat, '')`: every non-overlapping occurrence of `pat`, scanning
      from the left, is deleted. */
  function RemoveAll(s: string, pat: string): (r: string)
    requires pat != []
    ensures |r| <= |s|
    ensures forall c :: c in r ==> c in s
    decreases |s|
  {
    if s == [] then []
    else if pat <= s then RemoveAll(s[|pat|..], pat)
    else
      var r := [s[0]] + RemoveAll(s[1..], pat);
      assert forall c :: c in r ==> c == s[0] || c in s[1..];
      r
  }

  /** A string missing one of the characters of `pat` holds no occurrence of
      it, and `replace` leaves it alone. */
  lemma {:induction false} RemoveAllAbsent(s: string, pat: string, j: nat)
    requires j < |pat| && pat[j] !in s
    ensures RemoveAll(s, pat) == s
    decreases |s|
  {
    if s != [] {
      assert !(pat <= s) by {
        assert pat[j] in pat;
      }
      RemoveAllAbsent(s[1..], pat, j);
      assert [s[0]] + s[1..] == s;
    }
  }

  /** Deleting `pat` from `pat + tail` leaves `tail` when some character of
      `pat` never occurs in `tail`. */
  lemma RemoveAllLeading(pat: string, tail: string, j: nat)
    requires j < |pat| && pat[j] !in tail
    ensures RemoveAll(pat + tail, pat) == tail
  {
    assert (pat + tail)[|pat|..] == tail;
    RemoveAllAbsent(tail, pat, j);
  }
}
