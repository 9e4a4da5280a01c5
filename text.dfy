/** String helpers shared by the post formatter and the section replacer:
    an optional value, substring search, and joining / splitting lines on
    a newline the way Python's `"\n".join` and `str.split("\n")` do. */
module Text {

  datatype Option<+T> = None | Some(value: T) {
    /** The carried value, or `default` when there is none (Python's `dict.get(key, default)`). */
    function GetOr(default: T): T {
      match this
      case Some(v) => v
      case None => default
    }
  }

  /** `pat` occurs in `s` starting at index `k`. */
  predicate OccursAt(s: string, pat: string, k: int) {
    0 <= k && k + |pat| <= |s| && s[k..k + |pat|] == pat
  }

  /** `pat` occurs somewhere in `s`. */
  predicate Contains(s: string, pat: string) {
    exists k :: 0 <= k <= |s| && OccursAt(s, pat, k)
  }

  /** `pat` occurs in `s` at `i` and nowhere before. */
  predicate FirstAt(s: string, pat: string, i: int) {
    OccursAt(s, pat, i) && forall k :: 0 <= k < i ==> !OccursAt(s, pat, k)
  }

  /** Index of the first occurrence of `pat` in `s`, if any. */
  function Find(s: string, pat: string): (r: Option<nat>)
    ensures r.Some? ==> FirstAt(s, pat, r.value)
    ensures r.None? <==> !Contains(s, pat)
  {
    FindFrom(s, pat, 0)
  }

  /** Index of the first occurrence of `pat` in `s` at or after `from`, if any. */
  function FindFrom(s: string, pat: string, from: nat): (r: Option<nat>)
    ensures r.Some? ==> from <= r.value && OccursAt(s, pat, r.value)
    ensures r.Some? ==> forall k :: from <= k < r.value ==> !OccursAt(s, pat, k)
    ensures r.None? ==> forall k :: from <= k ==> !OccursAt(s, pat, k)
    decreases |s| - from
  {
    if from + |pat| > |s| then None
    else if s[from..from + |pat|] == pat then Some(from)
    else FindFrom(s, pat, from + 1)
  }

  /** An index where `pat` occurs, with no occurrence before it, is what `Find` returns. */
  lemma FindFirst(s: string, pat: string, i: nat)
    requires FirstAt(s, pat, i)
    ensures Find(s, pat) == Some(i)
  {
  }

  /** Whether `pat` occurs at `k` depends only on a prefix `u` of `s` long enough to hold it. */
  lemma OccursInPrefix(s: string, u: string, pat: string, k: int)
    requires |u| <= |s| && s[..|u|] == u
    requires 0 <= k && k + |pat| <= |u|
    ensures OccursAt(s, pat, k) <==> OccursAt(u, pat, k)
  {
    assert s[..|u|][k..k + |pat|] == s[k..k + |pat|];
  }

  /** Python's `"\n".join(lines)`. */
  function JoinLines(lines: seq<string>): (r: string)
    ensures |lines| > 0 ==> |lines[0]| <= |r| && r[..|lines[0]|] == lines[0]
    ensures |lines| > 0 ==> var last := lines[|lines| - 1];
      |last| <= |r| && r[|r| - |last|..] == last
    ensures |lines| == 0 ==> r == ""
    decreases |lines|
  {
    if |lines| == 0 then ""
    else if |lines| == 1 then lines[0]
    else lines[0] + "\n" + JoinLines(lines[1..])
  }

  /** Joining adds no character but the newline: a character other than the newline
      that no line holds is not in the joined text. */
  lemma {:induction false} JoinLinesAvoids(lines: seq<string>, ch: char)
    requires ch != '\n'
    requires forall k :: 0 <= k < |lines| ==> ch !in lines[k]
    ensures ch !in JoinLines(lines)
    decreases |lines|
  {
    if |lines| > 1 {
      forall k | 0 <= k < |lines[1..]| ensures ch !in lines[1..][k] {
        assert lines[1..][k] == lines[k + 1];
      }
      JoinLinesAvoids(lines[1..], ch);
      var rest := JoinLines(lines[1..]);
      assert JoinLines(lines) == lines[0] + "\n" + rest;
      assert ch !in lines[0] && ch !in "\n" && ch !in rest;
    }
  }

  /** Python's `s.split("\n")`: always at least one piece. */
  function SplitLines(s: string): (r: seq<string>)
    ensures |r| > 0
    decreases |s|
  {
    if |s| == 0 then [""]
    else
      var rest := SplitLines(s[1..]);
      if s[0] == '\n' then [""] + rest
      else [[s[0]] + rest[0]] + rest[1..]
  }

  /** A piece without a newline, followed by a newline, is split off as one line. */
  lemma {:induction false} SplitLinesFirst(line: string, rest: string)
    requires '\n' !in line
    ensures SplitLines(line + "\n" + rest) == [line] + SplitLines(rest)
    decreases |line|
  {
    if |line| == 0 {
      assert line + "\n" + rest == ['\n'] + rest;
      assert (['\n'] + rest)[1..] == rest;
    } else {
      var s := line + "\n" + rest;
      assert s[1..] == line[1..] + "\n" + rest;
      SplitLinesFirst(line[1..], rest);
      assert [line[0]] + line[1..] == line;
    }
  }

  /** A text without newlines is one line. */
  lemma {:induction false} SplitLinesSingle(line: string)
    requires '\n' !in line
    ensures SplitLines(line) == [line]
    decreases |line|
  {
    if |line| > 0 {
      SplitLinesSingle(line[1..]);
      assert [line[0]] + line[1..] == line;
    }
  }

  /** Splitting undoes joining, as long as no line holds a newline itself. */
  lemma {:induction false} SplitJoin(lines: seq<string>)
    requires |lines| > 0
    requires forall k :: 0 <= k < |lines| ==> '\n' !in lines[k]
    ensures SplitLines(JoinLines(lines)) == lines
    decreases |lines|
  {
    if |lines| == 1 {
      SplitLinesSingle(lines[0]);
    } else {
      SplitLinesFirst(lines[0], JoinLines(lines[1..]));
      SplitJoin(lines[1..]);
      assert [lines[0]] + lines[1..] == lines;
    }
  }
}
