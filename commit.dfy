/** formatCommitMessage (commands/ai_commit.go:100-156): the free-form reply
    of the language model turned into the arguments of `git commit`, either
    line by line (github mode) or as the fragments between commit-type
    tokens, the first one labelled with the most frequent type (default mode). */
module AiCommit {
  import opened Results
  import opened GoStrings
  import opened Patterns

  /** The message errLog prints before exiting when default mode finds nothing to split on. */
  const NoPrefixError: string := "No valid commit message prefix found in AI response."

  // ---------------------------------------------------------------------------
  // Specification
  // ---------------------------------------------------------------------------

  /** "commit" followed by one "-m" pair per line, the lines in order. */
  function CommitArgs(lines: seq<string>): (args: seq<string>)
    ensures |args| == 2 * |lines| + 1 && args[0] == "commit"
    ensures forall k :: 0 <= k < |lines| ==> args[2 * k + 1] == "-m" && args[2 * k + 2] == lines[k]
  {
    if lines == [] then ["commit"]
    else CommitArgs(lines[..|lines| - 1]) + ["-m", lines[|lines| - 1]]
  }

  /** The trimmed parts that are not blank, in their original order. */
  function NonBlank(parts: seq<string>): seq<string>
  {
    if parts == [] then []
    else
      var line := TrimSpace(parts[|parts| - 1]);
      NonBlank(parts[..|parts| - 1]) + (if line == [] then [] else [line])
  }

  /** The lines github mode emits: the text cut at every "\n" (a "\r" is
      kept inside its line and trimmed away only at a line's ends). */
  function GithubLines(msg: string): seq<string>
  {
    NonBlank(SplitOn(msg, '\n'))
  }

  /** The fragments default mode emits, before the first one is labelled. */
  function DefaultLines(msg: string): seq<string>
  {
    NonBlank(Pieces(msg))
  }

  /** A match that names a commit type rather than a line break. */
  predicate IsTypeToken(d: string) {
    d != "\n" && d != "\r"
  }

  /** The commit type a token names: the token without its colon. */
  function TypeOf(d: string): string {
    TrimSuffix(d, ":")
  }

  /** The commit types named by the matches ms, in order, line breaks skipped. */
  function TypeTokens(ms: seq<string>): seq<string>
  {
    if ms == [] then []
    else
      var d := ms[|ms| - 1];
      TypeTokens(ms[..|ms| - 1]) + (if IsTypeToken(d) then [TypeOf(d)] else [])
  }

  /** prefixCounter after the counting loop over the matches ms. */
  function PrefixCounts(ms: seq<string>): (counts: map<string, nat>)
  {
    if ms == [] then map[]
    else
      var counts := PrefixCounts(ms[..|ms| - 1]);
      var d := ms[|ms| - 1];
      if !IsTypeToken(d) then counts
      else
        var p := TypeOf(d);
        counts[p := if p in counts then counts[p] + 1 else 1]
  }

  /** p may be chosen by the tie-breaking loop: "" when nothing was counted,
      otherwise a counted type whose count no other type exceeds. */
  predicate IsDominant(counts: map<string, nat>, p: string) {
    (counts == map[] && p == "")
    || (p in counts && forall q :: q in counts ==> counts[q] <= counts[p])
  }

  /** The first line labelled "p: " unless it already starts with the bare text p. */
  function PrefixFirst(lines: seq<string>, p: string): (r: seq<string>)
    ensures |r| == |lines| && forall k :: 1 <= k < |lines| ==> r[k] == lines[k]
    ensures lines != [] ==> HasPrefix(r[0], p) && HasSuffix(r[0], lines[0])
    ensures lines != [] ==> (r[0] == lines[0] <==> HasPrefix(lines[0], p))
    ensures lines != [] && !HasPrefix(lines[0], p) ==> r[0] == p + ": " + lines[0]
  {
    if lines == [] then []
    else if HasPrefix(lines[0], p) then lines
    else [p + ": " + lines[0]] + lines[1..]
  }

  // ---------------------------------------------------------------------------
  // The formatter
  // ---------------------------------------------------------------------------

  lemma PrefixFirstAt(lines: seq<string>, p: string, k: nat)
    requires k < |lines|
    ensures PrefixFirst(lines, p)[k] == (if k == 0 && !HasPrefix(lines[0], p) then p + ": " + lines[0] else lines[k])
  {
  }

  lemma CommitArgsSnoc(lines: seq<string>, line: string)
    ensures CommitArgs(lines + [line]) == CommitArgs(lines) + ["-m", line]
  {
    assert (lines + [line])[..|lines|] == lines;
  }

  lemma NonBlankSnoc(parts: seq<string>, part: string)
    ensures NonBlank(parts + [part]) ==
      NonBlank(parts) + (if TrimSpace(part) == [] then [] else [TrimSpace(part)])
  {
    assert (parts + [part])[..|parts|] == parts;
  }

  /** Github mode (commands/ai_commit.go:101-110). */
  method FormatGithub(commitMsg: string) returns (args: seq<string>)
    ensures args == CommitArgs(GithubLines(commitMsg))
  {
    var msg := SplitOn(commitMsg, '\n');
    args := ["commit"];
    ghost var lines := [];
    for k := 0 to |msg|
      invariant lines == NonBlank(msg[..k])
      invariant args == CommitArgs(lines)
    {
      var line := TrimSpace(msg[k]);
      NonBlankSnoc(msg[..k], msg[k]);
      assert msg[..k + 1] == msg[..k] + [msg[k]];
      if line != [] {
        CommitArgsSnoc(lines, line);
        args := args + ["-m", line];
        lines := lines + [line];
      }
    }
    assert msg[..|msg|] == msg;
  }

  /** The counting loop (commands/ai_commit.go:117-123). */
  method CountPrefixes(matched: seq<string>) returns (counter: map<string, nat>)
    ensures counter == PrefixCounts(matched)
  {
    counter := map[];
    for k := 0 to |matched|
      invariant counter == PrefixCounts(matched[..k])
    {
      assert matched[..k + 1][..k] == matched[..k];
      var prefix := matched[k];
      if prefix != "\n" && prefix != "\r" {
        prefix := TrimSuffix(prefix, ":");
        counter := counter[prefix := if prefix in counter then counter[prefix] + 1 else 1];
      }
    }
    assert matched[..|matched|] == matched;
  }

  /** The tie-breaking loop (commands/ai_commit.go:124-131); the map's
      iteration order is an arbitrary choice among the keys not yet visited. */
  method ChooseDominant(counter: map<string, nat>) returns (finalPrefix: string)
    requires forall q :: q in counter ==> counter[q] > 0
    ensures IsDominant(counter, finalPrefix)
  {
    finalPrefix := "";
    var maxCount := 0;
    var unvisited := counter.Keys;
    while unvisited != {}
      invariant unvisited <= counter.Keys
      invariant forall q :: q in counter && q !in unvisited ==> counter[q] <= maxCount
      invariant maxCount == 0 ==> finalPrefix == ""
      invariant maxCount > 0 ==> finalPrefix in counter && counter[finalPrefix] == maxCount
      decreases |unvisited|
    {
      var prefix :| prefix in unvisited;
      var count := counter[prefix];
      if count > maxCount {
        maxCount := count;
        finalPrefix := prefix;
      }
      unvisited := unvisited - {prefix};
    }
    if counter != map[] {
      var q :| q in counter;
      assert counter[q] <= maxCount;
    }
  }

  /** The filtering loop (commands/ai_commit.go:136-143). */
  method FilterLines(parts: seq<string>) returns (lines: seq<string>)
    ensures lines == NonBlank(parts)
  {
    lines := [];
    for k := 0 to |parts|
      invariant lines == NonBlank(parts[..k])
    {
      NonBlankSnoc(parts[..k], parts[k]);
      assert parts[..k + 1] == parts[..k] + [parts[k]];
      var trimmedLine := TrimSpace(parts[k]);
      if trimmedLine != [] {
        lines := lines + [trimmedLine];
      }
    }
    assert parts[..|parts|] == parts;
  }

  /** The argument-building loop (commands/ai_commit.go:145-154); its
      TrimSpace leaves the already trimmed lines as they are. */
  method BuildArgs(lines: seq<string>, finalPrefix: string) returns (args: seq<string>)
    requires forall k :: 0 <= k < |lines| ==> IsTrimmed(lines[k])
    ensures args == CommitArgs(PrefixFirst(lines, finalPrefix))
  {
    var labelled := PrefixFirst(lines, finalPrefix);
    args := ["commit"];
    for idx := 0 to |lines|
      invariant args == CommitArgs(labelled[..idx])
    {
      var line := TrimSpace(lines[idx]);
      TrimSpaceOfTrimmed(lines[idx]);
      if idx == 0 && !HasPrefix(line, finalPrefix) {
        line := finalPrefix + ": " + line;
      }
      PrefixFirstAt(lines, finalPrefix, idx);
      CommitArgsSnoc(labelled[..idx], line);
      assert labelled[..idx + 1] == labelled[..idx] + [line];
      args := args + ["-m", line];
    }
    assert labelled[..|lines|] == labelled;
  }

  /** formatCommitMessage. Github mode never fails; default mode fails only
      when the splitter matches nothing, and otherwise labels the first
      fragment with a most frequent commit type, named by `dominant`. */
  method FormatCommitMessage(commitMsg: string, isGithub: bool)
    returns (r: Result<seq<string>>, ghost dominant: string)
    ensures isGithub ==> r == Ok(CommitArgs(GithubLines(commitMsg)))
    ensures !isGithub ==> (r.Err? <==> Matches(commitMsg) == [])
    ensures !isGithub && r.Err? ==> r.msg == NoPrefixError
    ensures !isGithub && r.Ok? ==>
      IsDominant(PrefixCounts(Matches(commitMsg)), dominant)
      && r.value == CommitArgs(PrefixFirst(DefaultLines(commitMsg), dominant))
  {
    dominant := "";
    if isGithub {
      var args := FormatGithub(commitMsg);
      return Ok(args), dominant;
    }
    var matchedPrefix := Matches(commitMsg);
    if |matchedPrefix| == 0 {
      return Err(NoPrefixError), dominant;
    }
    var prefixCounter := CountPrefixes(matchedPrefix);
    PrefixCountsPositive(matchedPrefix);
    var finalPrefix := ChooseDominant(prefixCounter);
    var splitCommitMsg := Pieces(commitMsg);
    var filteredLines := FilterLines(splitCommitMsg);
    NonBlankLines(splitCommitMsg);
    var commitArgs := BuildArgs(filteredLines, finalPrefix);
    dominant := finalPrefix;
    r := Ok(commitArgs);
  }

  // ---------------------------------------------------------------------------
  // Properties
  // ---------------------------------------------------------------------------

  /** Every counted type was counted at least once. */
  lemma {:induction false} PrefixCountsPositive(ms: seq<string>)
    ensures forall q :: q in PrefixCounts(ms) ==> PrefixCounts(ms)[q] > 0
  {
    if ms != [] {
      PrefixCountsPositive(ms[..|ms| - 1]);
    }
  }

  /** The counter is the multiset of the commit types the matches name: a
      type is a key exactly when it occurs, and its count is how often. */
  lemma {:induction false} PrefixCountsAreOccurrences(ms: seq<string>, p: string)
    ensures p in PrefixCounts(ms) <==> p in multiset(TypeTokens(ms))
    ensures p in PrefixCounts(ms) ==> PrefixCounts(ms)[p] == multiset(TypeTokens(ms))[p]
  {
    if ms != [] {
      PrefixCountsAreOccurrences(ms[..|ms| - 1], p);
    }
  }

  /** The chosen type occurs at least as often as any other type, and when
      nothing was counted it is the empty string. */
  lemma DominantIsMostFrequent(ms: seq<string>, p: string, q: string)
    requires IsDominant(PrefixCounts(ms), p)
    ensures multiset(TypeTokens(ms))[q] <= multiset(TypeTokens(ms))[p]
    ensures TypeTokens(ms) == [] ==> p == ""
  {
    PrefixCountsAreOccurrences(ms, p);
    PrefixCountsAreOccurrences(ms, q);
  }

  lemma {:induction false} NonBlankAppend(a: seq<string>, b: seq<string>)
    ensures NonBlank(a + b) == NonBlank(a) + NonBlank(b)
    decreases |b|
  {
    if b == [] {
      assert a + b == a;
    } else {
      var b' := b[..|b| - 1];
      var last := b[|b| - 1];
      assert a + b == (a + b') + [last];
      assert b == b' + [last];
      NonBlankAppend(a, b');
      NonBlankSnoc(a + b', last);
      NonBlankSnoc(b', last);
    }
  }

  /** The filtered lines are non-empty and trimmed, and there are no more of them than parts. */
  lemma {:induction false} NonBlankLines(parts: seq<string>)
    ensures |NonBlank(parts)| <= |parts|
    ensures forall k :: 0 <= k < |NonBlank(parts)| ==> NonBlank(parts)[k] != [] && IsTrimmed(NonBlank(parts)[k])
  {
    if parts != [] {
      NonBlankLines(parts[..|parts| - 1]);
    }
  }

  /** Each emitted line is some part, trimmed. */
  lemma {:induction false} NonBlankSource(parts: seq<string>, k: nat) returns (j: nat)
    requires k < |NonBlank(parts)|
    ensures j < |parts| && NonBlank(parts)[k] == TrimSpace(parts[j])
  {
    var init := parts[..|parts| - 1];
    if k < |NonBlank(init)| {
      j := NonBlankSource(init, k);
    } else {
      j := |parts| - 1;
    }
  }

  /** Nothing is emitted exactly when every part is blank. */
  lemma {:induction false} NonBlankEmpty(parts: seq<string>)
    ensures NonBlank(parts) == [] <==> forall j :: 0 <= j < |parts| ==> TrimSpace(parts[j]) == []
  {
    if parts != [] {
      var init := parts[..|parts| - 1];
      NonBlankEmpty(init);
      var line := TrimSpace(parts[|parts| - 1]);
      assert NonBlank(parts) == NonBlank(init) + (if line == [] then [] else [line]);
      assert forall j :: 0 <= j < |init| ==> init[j] == parts[j];
    }
  }

  /** Github mode cuts at "\n" only: no line holds a newline. */
  lemma GithubLinesHaveNoNewline(msg: string)
    ensures forall k :: 0 <= k < |GithubLines(msg)| ==> '\n' !in GithubLines(msg)[k]
  {
    var parts := SplitOn(msg, '\n');
    forall k | 0 <= k < |GithubLines(msg)|
      ensures '\n' !in GithubLines(msg)[k]
    {
      var j := NonBlankSource(parts, k);
      TrimSpaceKeepsOut(parts[j], '\n');
    }
  }

  lemma TrimSpaceKeepsOut(s: string, c: char)
    requires c !in s
    ensures c !in TrimSpace(s)
  {
    var t := TrimSpace(s);
    var a := TrimStart(s);
    forall i | 0 <= i < |t|
      ensures t[i] != c
    {
      assert t[i] == s[a + i];
    }
  }

  /** A reply made only of white space gives exactly ["commit"] in github mode. */
  lemma GithubBlank(msg: string)
    requires forall i :: 0 <= i < |msg| ==> IsSpace(msg[i])
    ensures CommitArgs(GithubLines(msg)) == ["commit"]
  {
    var parts := SplitOn(msg, '\n');
    forall j | 0 <= j < |parts|
      ensures TrimSpace(parts[j]) == []
    {
      forall i | 0 <= i < |parts[j]|
        ensures IsSpace(parts[j][i])
      {
        SplitOnChars(msg, '\n', parts[j][i]);
      }
      TrimSpaceSpec(parts[j]);
    }
    NonBlankEmpty(parts);
  }

  /** A "\r" is no line separator in github mode: a trimmed reply without
      "\n" is one line, whatever carriage returns it holds. */
  lemma GithubSingleLine(msg: string)
    requires msg != [] && IsTrimmed(msg) && '\n' !in msg
    ensures GithubLines(msg) == [msg]
  {
    SplitOnSepFree(msg, '\n');
    TrimSpaceOfTrimmed(msg);
    assert [msg][..0] == [];
    assert NonBlank([msg]) == NonBlank([]) + [msg];
  }

  /** The splitter's alternatives are line breaks or a commit type with its colon. */
  lemma DelimiterKinds(d: string)
    requires IsDelimiter(d)
    ensures !IsTypeToken(d) || (TypeOf(d) in CommitTypes && d == TypeOf(d) + ":")
  {
    var k :| 0 <= k < |Delimiters| && Delimiters[k] == d;
    if k < |CommitTypes| {
      var t := CommitTypes[k];
      assert d == t + ":";
      assert HasSuffix(d, ":");
      assert TypeOf(d) == t;
    }
  }

  /** Default mode fails exactly when the reply holds none of the splitter's
      alternatives: no "type:" literal, no "\n" and no "\r". */
  lemma DefaultFailsIff(msg: string)
    ensures Matches(msg) == [] <==> forall k :: 0 <= k < |Delimiters| ==> !Contains(msg, Delimiters[k])
  {
    MatchesEmptyIff(msg);
    if DelimiterFree(msg) {
      forall k | 0 <= k < |Delimiters|
        ensures !Contains(msg, Delimiters[k])
      {
        DelimiterFreeContainsNone(msg, k);
      }
    }
    if forall k :: 0 <= k < |Delimiters| ==> !Contains(msg, Delimiters[k]) {
      forall j | 0 <= j < |msg|
        ensures DelimiterAt(msg, j) == []
      {
        DelimiterAtSpec(msg, j);
        forall k | 0 <= k < |Delimiters|
          ensures !OccursAt(msg, Delimiters[k], j)
        {
          assert !Contains(msg, Delimiters[k]);
        }
      }
    }
  }

  /** A reply whose only delimiters are line breaks counts no type, so the
      chosen type is "" and the first line is emitted as it is. */
  lemma LineBreaksOnly(msg: string, p: string)
    requires forall t :: t in CommitTypes ==> !Contains(msg, t + ":")
    requires IsDominant(PrefixCounts(Matches(msg)), p)
    ensures p == "" && PrefixFirst(DefaultLines(msg), p) == DefaultLines(msg)
  {
    var ms := Matches(msg);
    MatchesAreDelimiters(msg);
    forall k | 0 <= k < |ms|
      ensures !IsTypeToken(ms[k])
    {
      DelimiterKinds(ms[k]);
    }
    NoTypeTokens(ms);
    DominantIsMostFrequent(ms, p, p);
  }

  lemma {:induction false} NoTypeTokens(ms: seq<string>)
    requires forall k :: 0 <= k < |ms| ==> !IsTypeToken(ms[k])
    ensures TypeTokens(ms) == []
  {
    if ms != [] {
      NoTypeTokens(ms[..|ms| - 1]);
    }
  }

  /** The chosen type is "" or one of the seven commit types. */
  lemma DominantIsCommitType(msg: string, p: string)
    requires IsDominant(PrefixCounts(Matches(msg)), p)
    ensures p == "" || p in CommitTypes
  {
    var ms := Matches(msg);
    if p != "" {
      PrefixCountsAreOccurrences(ms, p);
      MatchesAreDelimiters(msg);
      TypeTokensOfDelimiters(ms);
    }
  }

  lemma {:induction false} TypeTokensOfDelimiters(ms: seq<string>)
    requires forall k :: 0 <= k < |ms| ==> IsDelimiter(ms[k])
    ensures forall t :: t in TypeTokens(ms) ==> t in CommitTypes
  {
    if ms != [] {
      TypeTokensOfDelimiters(ms[..|ms| - 1]);
      DelimiterKinds(ms[|ms| - 1]);
    }
  }

  /** A delimiter-free text stays delimiter-free when trimmed. */
  lemma TrimSpaceDelimiterFree(s: string)
    requires DelimiterFree(s)
    ensures DelimiterFree(TrimSpace(s))
  {
    var a := TrimStart(s);
    SliceDelimiterFree(s, a, TrimEnd(s));
  }

  /** The fragments are delimiter-free: no emitted fragment holds a "\n", a
      "\r" or a "type:" literal. */
  lemma DefaultLinesDelimiterFree(msg: string)
    ensures forall k :: 0 <= k < |DefaultLines(msg)| ==> DelimiterFree(DefaultLines(msg)[k])
  {
    PiecesDelimiterFree(msg);
    forall k | 0 <= k < |DefaultLines(msg)|
      ensures DelimiterFree(DefaultLines(msg)[k])
    {
      var j := NonBlankSource(Pieces(msg), k);
      TrimSpaceDelimiterFree(Pieces(msg)[j]);
    }
  }

  /** Every emitted line of default mode is non-empty and trimmed, the
      labelled first one included. */
  lemma DefaultLinesTrimmed(msg: string, p: string)
    requires IsDominant(PrefixCounts(Matches(msg)), p)
    ensures var out := PrefixFirst(DefaultLines(msg), p);
      forall k :: 0 <= k < |out| ==> out[k] != [] && IsTrimmed(out[k])
  {
    var lines := DefaultLines(msg);
    DominantIsCommitType(msg, p);
    NonBlankLines(Pieces(msg));
    if lines != [] && !HasPrefix(lines[0], p) {
      var first := p + ": " + lines[0];
      assert first[0] == p[0] && first[|first| - 1] == lines[0][|lines[0]| - 1];
    }
  }

  /** The first fragment never starts with "type:", since the splitter cut
      that away. The label test looks for the bare type without a colon, so
      it leaves the fragment unlabelled exactly when it starts with the bare
      type followed by something other than a colon ("fix bug", "fix",
      "feat(ui) x"), and otherwise writes "type: " before it. */
  lemma FirstLineNeverLabelled(msg: string, k: nat)
    requires k < |CommitTypes| && DefaultLines(msg) != []
    ensures var line := DefaultLines(msg)[0]; var t := CommitTypes[k];
      !HasPrefix(line, t + ":")
      && (HasPrefix(line, t) ==> |line| == |t| || line[|t|] != ':')
      && PrefixFirst(DefaultLines(msg), t)[0] == (if HasPrefix(line, t) then line else t + ": " + line)
  {
    DefaultLinesDelimiterFree(msg);
    var line := DefaultLines(msg)[0];
    var t := CommitTypes[k];
    assert Delimiters[k] == t + ":";
    DelimiterFreeContainsNone(line, k);
    assert HasPrefix(line, Delimiters[k]) ==> OccursAt(line, Delimiters[k], 0);
    if HasPrefix(line, t) && |line| > |t| {
      assert line[..|t| + 1] == t + [line[|t|]];
    }
  }
}
