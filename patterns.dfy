/** The regular expressions of commands/utils.go:17-19, written out as
    hand-made leftmost matchers over strings. */
module Patterns {
  import opened Results
  import opened GoStrings

  /** url.Parse followed by URL.String(): the parsed form, or the parse error. */
  type UrlParser = string -> Result<string>

  // ---------------------------------------------------------------------------
  // regexpSplitter = `(feat:|test:|revert:|chore:|style:|refactor:|fix:|\n|\r)`
  // ---------------------------------------------------------------------------

  /** The commit types the splitter recognises, in the pattern's order. */
  const CommitTypes: seq<string> := ["feat", "test", "revert", "chore", "style", "refactor", "fix"]

  /** The alternatives of the splitter, in the pattern's order. */
  const Delimiters: seq<string> :=
    ["feat:", "test:", "revert:", "chore:", "style:", "refactor:", "fix:", "\n", "\r"]

  predicate IsDelimiter(d: string) {
    d in Delimiters
  }

  /** The first of the literals ds that occurs at position i of s, or "" when none does. */
  function FirstAt(s: string, i: nat, ds: seq<string>): string
  {
    if ds == [] then []
    else if OccursAt(s, ds[0], i) then ds[0]
    else FirstAt(s, i, ds[1..])
  }

  lemma {:induction false} FirstAtSpec(s: string, i: nat, ds: seq<string>)
    requires forall k :: 0 <= k < |ds| ==> ds[k] != []
    ensures var d := FirstAt(s, i, ds);
      (d != [] ==> d in ds && OccursAt(s, d, i))
      && (d == [] <==> forall k :: 0 <= k < |ds| ==> !OccursAt(s, ds[k], i))
  {
    if ds != [] && !OccursAt(s, ds[0], i) {
      FirstAtSpec(s, i, ds[1..]);
      assert forall k :: 1 <= k < |ds| ==> ds[k] == ds[1..][k - 1];
    }
  }

  /** The delimiter the splitter matches at position i of s, or "" when none:
      the alternatives are tried in the pattern's order. */
  function DelimiterAt(s: string, i: nat): string
  {
    FirstAt(s, i, Delimiters)
  }

  /** What the splitter matches at i is a delimiter occurring there, and it
      matches nothing exactly when no delimiter occurs there. */
  lemma DelimiterAtSpec(s: string, i: nat)
    ensures var d := DelimiterAt(s, i);
      (d != [] ==> IsDelimiter(d) && OccursAt(s, d, i))
      && (d == [] <==> forall k :: 0 <= k < |Delimiters| ==> !OccursAt(s, Delimiters[k], i))
  {
    FirstAtSpec(s, i, Delimiters);
  }

  /** The splitter matches nowhere in p. */
  predicate DelimiterFree(p: string) {
    forall j :: 0 <= j < |p| ==> DelimiterAt(p, j) == []
  }

  /** Two different alternatives already differ within their first three characters. */
  lemma DelimitersDiffer(a: nat, b: nat)
    requires a < |Delimiters| && b < |Delimiters| && a != b
    ensures var x, y := Delimiters[a], Delimiters[b];
      x[0] != y[0] || (|x| > 2 && |y| > 2 && (x[1] != y[1] || x[2] != y[2]))
  {
  }

  /** No two alternatives of the splitter can match at the same position, so
      the order of the alternatives does not matter. */
  lemma DelimitersUnambiguous(s: string, i: nat, a: nat, b: nat)
    requires a < |Delimiters| && b < |Delimiters| && a != b
    ensures !(OccursAt(s, Delimiters[a], i) && OccursAt(s, Delimiters[b], i))
  {
    var x, y := Delimiters[a], Delimiters[b];
    DelimitersDiffer(a, b);
    assert OccursAt(s, x, i) ==> s[i] == x[0] && (|x| > 2 ==> s[i + 1] == x[1] && s[i + 2] == x[2]);
    assert OccursAt(s, y, i) ==> s[i] == y[0] && (|y| > 2 ==> s[i + 1] == y[1] && s[i + 2] == y[2]);
  }

  /** What the splitter produces on a text: the pieces between matches
      (regexpSplitter.Split) and the matches themselves (FindAllString). */
  datatype Tokens = Tokens(pieces: seq<string>, delimiters: seq<string>)

  /** Leftmost scan from position i; the current piece began at start. */
  function ScanFrom(s: string, start: nat, i: nat): (t: Tokens)
    requires start <= i <= |s|
    ensures |t.pieces| == |t.delimiters| + 1
    decreases |s| - i
  {
    if i == |s| then Tokens([s[start..]], [])
    else
      var d := DelimiterAt(s, i);
      DelimiterAtSpec(s, i);
      if d == [] then ScanFrom(s, start, i + 1)
      else
        var rest := ScanFrom(s, i + |d|, i + |d|);
        Tokens([s[start..i]] + rest.pieces, [d] + rest.delimiters)
  }

  lemma {:induction false} ScanFromDelimiters(s: string, start: nat, i: nat)
    requires start <= i <= |s|
    ensures forall k :: 0 <= k < |ScanFrom(s, start, i).delimiters| ==>
      IsDelimiter(ScanFrom(s, start, i).delimiters[k]) && Contains(s, ScanFrom(s, start, i).delimiters[k])
    decreases |s| - i
  {
    if i == |s| {
    } else if DelimiterAt(s, i) == [] {
      ScanFromDelimiters(s, start, i + 1);
    } else {
      var d := DelimiterAt(s, i);
      var e := i + |d|;
      DelimiterAtSpec(s, i);
      assert Contains(s, d);
      ScanFromDelimiters(s, e, e);
    }
  }

  function Tokenize(s: string): Tokens
  {
    ScanFrom(s, 0, 0)
  }

  /** regexpSplitter.Split(s, -1) */
  function Pieces(s: string): (pieces: seq<string>)
    ensures |pieces| == |Matches(s)| + 1
  {
    Tokenize(s).pieces
  }

  /** regexpSplitter.FindAllString(s, -1) */
  function Matches(s: string): seq<string>
  {
    Tokenize(s).delimiters
  }

  /** Every match is one of the splitter's alternatives and occurs in the text. */
  lemma MatchesAreDelimiters(s: string)
    ensures forall k :: 0 <= k < |Matches(s)| ==> IsDelimiter(Matches(s)[k]) && Contains(s, Matches(s)[k])
  {
    ScanFromDelimiters(s, 0, 0);
  }

  /** The pieces with the delimiters put back between them. */
  function Interleave(pieces: seq<string>, delimiters: seq<string>): string
    requires |pieces| == |delimiters| + 1
  {
    if delimiters == [] then pieces[0]
    else pieces[0] + delimiters[0] + Interleave(pieces[1..], delimiters[1..])
  }

  lemma InterleaveCons(p: string, d: string, ps: seq<string>, ds: seq<string>)
    requires |ps| == |ds| + 1
    ensures Interleave([p] + ps, [d] + ds) == p + d + Interleave(ps, ds)
  {
    assert ([p] + ps)[1..] == ps;
    assert ([d] + ds)[1..] == ds;
  }

  /** One step of the round trip: a match at i closes the current piece. */
  lemma RoundTripStep(s: string, start: nat, i: nat)
    requires start <= i < |s| && DelimiterAt(s, i) != []
    requires i + |DelimiterAt(s, i)| <= |s|
    requires var d := DelimiterAt(s, i); var rest := ScanFrom(s, i + |d|, i + |d|);
      Interleave(rest.pieces, rest.delimiters) == s[i + |d|..]
    ensures Interleave(ScanFrom(s, start, i).pieces, ScanFrom(s, start, i).delimiters) == s[start..]
  {
    var d := DelimiterAt(s, i);
    DelimiterAtSpec(s, i);
    var t := ScanFrom(s, start, i);
    var rest := ScanFrom(s, i + |d|, i + |d|);
    assert t.pieces == [s[start..i]] + rest.pieces;
    assert t.delimiters == [d] + rest.delimiters;
    InterleaveCons(s[start..i], d, rest.pieces, rest.delimiters);
    assert d == s[i..i + |d|];
    SliceSplit(s, start, i, i + |d|);
  }

  lemma SliceSplit(s: string, a: nat, b: nat, c: nat)
    requires a <= b <= c <= |s|
    ensures s[a..] == s[a..b] + s[b..c] + s[c..]
  {
  }

  function NextScan(s: string, i: nat): (e: nat)
    requires i < |s|
    ensures i < e <= |s|
  {
    DelimiterAtSpec(s, i);
    if DelimiterAt(s, i) == [] then i + 1 else i + |DelimiterAt(s, i)|
  }

  lemma ScanStepRoundTrip(s: string, start: nat, i: nat)
    requires start <= i < |s|
    requires var e := NextScan(s, i); var rest := ScanFrom(s, e, e);
      Interleave(rest.pieces, rest.delimiters) == s[e..]
    requires NextScan(s, i) == i + 1 ==>
      Interleave(ScanFrom(s, start, i + 1).pieces, ScanFrom(s, start, i + 1).delimiters) == s[start..]
    ensures Interleave(ScanFrom(s, start, i).pieces, ScanFrom(s, start, i).delimiters) == s[start..]
  {
    DelimiterAtSpec(s, i);
    if DelimiterAt(s, i) == [] {
      ScanFromSkip(s, start, i);
    } else {
      RoundTripStep(s, start, i);
    }
  }

  /** Scanning past a position where nothing matches changes nothing. */
  lemma ScanFromSkip(s: string, start: nat, i: nat)
    requires start <= i < |s| && DelimiterAt(s, i) == []
    ensures ScanFrom(s, start, i) == ScanFrom(s, start, i + 1)
  {
  }

  lemma {:induction false} ScanFromRoundTrip(s: string, start: nat, i: nat)
    requires start <= i <= |s|
    ensures Interleave(ScanFrom(s, start, i).pieces, ScanFrom(s, start, i).delimiters) == s[start..]
    decreases |s| - i
  {
    if i < |s| {
      var e := NextScan(s, i);
      ScanFromRoundTrip(s, e, e);
      if e == i + 1 {
        ScanFromRoundTrip(s, start, i + 1);
      }
      ScanStepRoundTrip(s, start, i);
    }
  }

  /** The splitter loses nothing: the pieces and the matches, put back
      together in order, are the original text. */
  lemma TokenizeRoundTrip(s: string)
    ensures Interleave(Pieces(s), Matches(s)) == s
  {
    ScanFromRoundTrip(s, 0, 0);
  }

  /** A literal occurring in a slice occurs in the whole text. */
  lemma OccursInSlice(s: string, a: nat, b: nat, x: string, j: nat)
    requires a <= b <= |s|
    ensures OccursAt(s[a..b], x, j) ==> OccursAt(s, x, a + j)
  {
    if OccursAt(s[a..b], x, j) {
      forall m | 0 <= m < |x|
        ensures s[a + j + m] == x[m]
      {
        assert s[a..b][j..j + |x|][m] == x[m];
      }
      assert s[a + j..a + j + |x|] == x;
    }
  }

  /** A slice of s in which the splitter matches at no position is delimiter-free. */
  lemma SliceDelimiterFree(s: string, a: nat, b: nat)
    requires a <= b <= |s|
    requires forall k :: a <= k < b ==> DelimiterAt(s, k) == []
    ensures DelimiterFree(s[a..b])
  {
    forall j | 0 <= j < b - a
      ensures DelimiterAt(s[a..b], j) == []
    {
      DelimiterAtSpec(s, a + j);
      DelimiterAtSpec(s[a..b], j);
      forall k | 0 <= k < |Delimiters|
        ensures !OccursAt(s[a..b], Delimiters[k], j)
      {
        OccursInSlice(s, a, b, Delimiters[k], j);
      }
    }
  }

  lemma {:induction false} ScanFromPieceFree(s: string, start: nat, i: nat, n: nat)
    requires start <= i <= |s|
    requires forall k :: start <= k < i ==> DelimiterAt(s, k) == []
    requires n < |ScanFrom(s, start, i).pieces|
    ensures DelimiterFree(ScanFrom(s, start, i).pieces[n])
    decreases |s| - i
  {
    if i == |s| {
      SliceDelimiterFree(s, start, i);
      assert s[start..i] == s[start..];
    } else if DelimiterAt(s, i) == [] {
      ScanFromSkip(s, start, i);
      ScanFromPieceFree(s, start, i + 1, n);
    } else {
      var e := i + |DelimiterAt(s, i)|;
      DelimiterAtSpec(s, i);
      assert ScanFrom(s, start, i).pieces == [s[start..i]] + ScanFrom(s, e, e).pieces;
      if n == 0 {
        SliceDelimiterFree(s, start, i);
      } else {
        ScanFromPieceFree(s, e, e, n - 1);
      }
    }
  }

  /** No piece between matches holds a delimiter: no newline, no carriage
      return and no "type:" literal. */
  lemma PiecesDelimiterFree(s: string)
    ensures forall n :: 0 <= n < |Pieces(s)| ==> DelimiterFree(Pieces(s)[n])
  {
    forall n | 0 <= n < |Pieces(s)|
      ensures DelimiterFree(Pieces(s)[n])
    {
      ScanFromPieceFree(s, 0, 0, n);
    }
  }

  lemma {:induction false} ScanFromNoMatches(s: string, start: nat, i: nat)
    requires start <= i <= |s|
    ensures ScanFrom(s, start, i).delimiters == [] <==> forall k :: i <= k < |s| ==> DelimiterAt(s, k) == []
    decreases |s| - i
  {
    if i < |s| && DelimiterAt(s, i) == [] {
      ScanFromNoMatches(s, start, i + 1);
    }
  }

  /** The splitter finds nothing exactly when the text holds no delimiter. */
  lemma MatchesEmptyIff(s: string)
    ensures Matches(s) == [] <==> DelimiterFree(s)
  {
    ScanFromNoMatches(s, 0, 0);
  }

  /** A delimiter-free text has no newline, no carriage return and no
      "type:" literal anywhere. */
  lemma DelimiterFreeContainsNone(p: string, k: nat)
    requires DelimiterFree(p) && k < |Delimiters|
    ensures !Contains(p, Delimiters[k])
  {
    forall j | 0 <= j <= |p|
      ensures !OccursAt(p, Delimiters[k], j)
    {
      if j < |p| {
        DelimiterAtSpec(p, j);
      }
    }
  }

  // ---------------------------------------------------------------------------
  // regexpGitRepo = `git@[^:]+:([^\.]+).git$`
  // ---------------------------------------------------------------------------

  /** Position of the first c in s at or after i. */
  function IndexFrom(s: string, c: char, i: nat): (r: Option<nat>)
    ensures r.Some? ==> i <= r.value < |s| && s[r.value] == c
    ensures r.Some? ==> forall k :: i <= k < r.value ==> s[k] != c
    ensures r.None? ==> forall k :: i <= k < |s| ==> s[k] != c
    decreases |s| - i
  {
    if i >= |s| then None
    else if s[i] == c then Some(i)
    else IndexFrom(s, c, i + 1)
  }

  /** The pattern tried at position i: the captured path, if it matches there.
      `[^:]+` ends at the first colon after "git@" and must be non-empty; `$`
      pins the unescaped `.` and "git" to the last four characters, so the
      capture runs from after that colon to four before the end, must be
      non-empty and must hold no dot; `.` does not match a newline. */
  function GitRepoAt(s: string, i: nat): Option<string>
  {
    if !OccursAt(s, "git@", i) then None
    else
      match IndexFrom(s, ':', i + 4)
      case None => None
      case Some(j) =>
        if j == i + 4 || |s| < j + 6 then None
        else if '.' in s[j + 1..|s| - 4] || s[|s| - 4] == '\n' || s[|s| - 3..] != "git" then None
        else Some(s[j + 1..|s| - 4])
  }

  function GitRepoFrom(s: string, i: nat): Option<string>
    decreases |s| + 1 - i
  {
    if i > |s| then None
    else if GitRepoAt(s, i).Some? then GitRepoAt(s, i)
    else GitRepoFrom(s, i + 1)
  }

  /** regexpGitRepo.FindStringSubmatch(s)[1], or None when the pattern does not match. */
  function GitRepoPath(s: string): (r: Option<string>)
    ensures r.Some? ==> r.value != [] && '.' !in r.value
  {
    if GitRepoFrom(s, 0).Some? then
      GitRepoFromSound(s, 0);
      GitRepoFrom(s, 0)
    else None
  }

  /** regexpGitRepo.MatchString(s) */
  predicate IsSshRemote(s: string) {
    GitRepoPath(s).Some?
  }

  lemma {:induction false} GitRepoFromSound(s: string, i: nat)
    requires GitRepoFrom(s, i).Some?
    ensures var p := GitRepoFrom(s, i).value;
      p != [] && '.' !in p && |p| + 4 <= |s| && s[|s| - 4 - |p|..|s| - 4] == p
      && s[|s| - 3..] == "git" && s[|s| - 4] != '\n'
    decreases |s| + 1 - i
  {
    if GitRepoAt(s, i).None? {
      GitRepoFromSound(s, i + 1);
    }
  }

  /** Where the capture sits: it ends four characters before the end of a
      text ending in "git". */
  lemma GitRepoPathSound(s: string)
    requires IsSshRemote(s)
    ensures var p := GitRepoPath(s).value;
      |p| + 4 <= |s| && s[|s| - 4 - |p|..|s| - 4] == p
      && HasSuffix(s, "git") && s[|s| - 4] != '\n'
  {
    GitRepoFromSound(s, 0);
  }

  /** The usual remote form "git@<host>:<path>.git" matches, and the capture is the path. */
  lemma GitRepoPathOfRemote(host: string, path: string)
    requires host != [] && ':' !in host
    requires path != [] && '.' !in path
    ensures GitRepoPath("git@" + host + ":" + path + ".git") == Some(path)
  {
    var s := "git@" + host + ":" + path + ".git";
    var j := 4 + |host|;
    assert s[j] == ':';
    assert forall k :: 4 <= k < j ==> s[k] == host[k - 4];
    assert IndexFrom(s, ':', 4) == Some(j);
    assert s[j + 1..|s| - 4] == path;
    assert s[|s| - 3..] == "git";
    assert OccursAt(s, "git@", 0);
  }

  // ---------------------------------------------------------------------------
  // regexpSplitSpace = `\s+`
  // ---------------------------------------------------------------------------

  /** `\s` in Go's regexp syntax: tab, newline, form feed, carriage return, space. */
  predicate IsRegexSpace(c: char) {
    c == ' ' || c == '\t' || c == '\n' || c == '\r' || c as int == 12
  }

  /** End of the run of `\s` characters that starts at i. */
  function RunEnd(s: string, i: nat): (e: nat)
    requires i <= |s|
    ensures i <= e <= |s|
    ensures forall k :: i <= k < e ==> IsRegexSpace(s[k])
    ensures e == |s| || !IsRegexSpace(s[e])
    decreases |s| - i
  {
    if i < |s| && IsRegexSpace(s[i]) then RunEnd(s, i + 1) else i
  }

  function FieldsFrom(s: string, start: nat, i: nat): (fields: seq<string>)
    requires start <= i <= |s|
    requires forall k :: start <= k < i ==> !IsRegexSpace(s[k])
    ensures |fields| >= 1
    ensures forall k, c :: 0 <= k < |fields| && c in fields[k] ==> !IsRegexSpace(c)
    decreases |s| - i
  {
    if i == |s| then [s[start..]]
    else if IsRegexSpace(s[i]) then
      var e := RunEnd(s, i);
      [s[start..i]] + FieldsFrom(s, e, e)
    else FieldsFrom(s, start, i + 1)
  }

  /** regexpSplitSpace.Split(s, -1): the text cut at every maximal run of `\s`;
      leading or trailing space gives an empty first or last field. */
  function SplitSpace(s: string): (fields: seq<string>)
    ensures |fields| >= 1
    ensures forall k, c :: 0 <= k < |fields| && c in fields[k] ==> !IsRegexSpace(c)
  {
    FieldsFrom(s, 0, 0)
  }
}
