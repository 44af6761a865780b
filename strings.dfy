/** The helpers of Go's `strings` package that the commands use, over
    strings seen as sequences of Unicode code points. */
module GoStrings {

  /** unicode.IsSpace: the Latin-1 spaces and the other Unicode White_Space code points. */
  predicate IsSpace(c: char) {
    var n := c as int;
    (9 <= n <= 13) || n == 32 || n == 0x85 || n == 0xA0 || n == 0x1680
    || (0x2000 <= n <= 0x200A) || n == 0x2028 || n == 0x2029 || n == 0x202F
    || n == 0x205F || n == 0x3000
  }

  /** A string with no white space at either end. */
  predicate IsTrimmed(s: string) {
    s == [] || (!IsSpace(s[0]) && !IsSpace(s[|s| - 1]))
  }

  /** Index of the first character at or after i that is not white space (|s| when none). */
  function SkipSpace(s: string, i: nat): (j: nat)
    requires i <= |s|
    ensures i <= j <= |s| && (j == |s| || !IsSpace(s[j]))
    decreases |s| - i
  {
    if i < |s| && IsSpace(s[i]) then SkipSpace(s, i + 1) else i
  }

  /** Index just after the last character before j that is not white space,
      looking no further back than lo. */
  function SkipSpaceBack(s: string, lo: nat, j: nat): (k: nat)
    requires lo <= j <= |s|
    ensures lo <= k <= j && (k == lo || !IsSpace(s[k - 1]))
    decreases j
  {
    if j > lo && IsSpace(s[j - 1]) then SkipSpaceBack(s, lo, j - 1) else j
  }

  lemma {:induction false} SkipSpaceSkipsSpace(s: string, i: nat)
    requires i <= |s|
    ensures forall k :: i <= k < SkipSpace(s, i) ==> IsSpace(s[k])
    decreases |s| - i
  {
    if i < |s| && IsSpace(s[i]) {
      SkipSpaceSkipsSpace(s, i + 1);
    }
  }

  lemma {:induction false} SkipSpaceBackSkipsSpace(s: string, lo: nat, j: nat)
    requires lo <= j <= |s|
    ensures forall k :: SkipSpaceBack(s, lo, j) <= k < j ==> IsSpace(s[k])
    decreases j
  {
    if j > lo && IsSpace(s[j - 1]) {
      SkipSpaceBackSkipsSpace(s, lo, j - 1);
    }
  }

  /** Where TrimSpace(s) starts inside s. */
  function TrimStart(s: string): nat
  {
    SkipSpace(s, 0)
  }

  /** Where TrimSpace(s) ends inside s. */
  function TrimEnd(s: string): (e: nat)
    ensures TrimStart(s) <= e <= |s|
  {
    SkipSpaceBack(s, TrimStart(s), |s|)
  }

  /** strings.TrimSpace: the slice of s between its leading and trailing
      white space, with no white space at either end. */
  function TrimSpace(s: string): (r: string)
    ensures IsTrimmed(r)
  {
    s[TrimStart(s)..TrimEnd(s)]
  }

  /** What TrimSpace cuts away is white space, and the result is empty
      exactly when s is all white space. */
  lemma TrimSpaceSpec(s: string)
    ensures forall i :: 0 <= i < TrimStart(s) ==> IsSpace(s[i])
    ensures forall i :: TrimEnd(s) <= i < |s| ==> IsSpace(s[i])
    ensures TrimSpace(s) == [] <==> forall i :: 0 <= i < |s| ==> IsSpace(s[i])
  {
    SkipSpaceSkipsSpace(s, 0);
    SkipSpaceBackSkipsSpace(s, TrimStart(s), |s|);
  }

  lemma TrimSpaceOfTrimmed(s: string)
    requires IsTrimmed(s)
    ensures TrimSpace(s) == s
  {
  }

  lemma TrimSpaceIdempotent(s: string)
    ensures TrimSpace(TrimSpace(s)) == TrimSpace(s)
  {
    TrimSpaceOfTrimmed(TrimSpace(s));
  }

  predicate HasPrefix(s: string, p: string) {
    |p| <= |s| && s[..|p|] == p
  }

  predicate HasSuffix(s: string, p: string) {
    |p| <= |s| && s[|s| - |p|..] == p
  }

  /** strings.TrimPrefix: drops p once from the front when it is there. */
  function TrimPrefix(s: string, p: string): (r: string)
    ensures HasPrefix(s, p) ==> s == p + r
    ensures !HasPrefix(s, p) ==> r == s
  {
    if HasPrefix(s, p) then s[|p|..] else s
  }

  /** strings.TrimSuffix: drops p once from the back when it is there. */
  function TrimSuffix(s: string, p: string): (r: string)
    ensures HasSuffix(s, p) ==> s == r + p
    ensures !HasSuffix(s, p) ==> r == s
  {
    if HasSuffix(s, p) then s[..|s| - |p|] else s
  }

  /** strings.TrimLeft(s, cutset) with a one-character cutset: drops every
      leading c, and nothing else. */
  function TrimLeftChar(s: string, c: char): (r: string)
    ensures |r| <= |s| && r == s[|s| - |r|..]
    ensures r == [] || r[0] != c
    ensures forall i :: 0 <= i < |s| - |r| ==> s[i] == c
  {
    if s != [] && s[0] == c then TrimLeftChar(s[1..], c) else s
  }

  /** sub occurs in s starting at position i. */
  predicate OccursAt(s: string, sub: string, i: int) {
    0 <= i && i + |sub| <= |s| && s[i..i + |sub|] == sub
  }

  /** strings.Contains */
  predicate Contains(s: string, sub: string) {
    exists i :: 0 <= i <= |s| && OccursAt(s, sub, i)
  }

  /** Number of occurrences of c in s. */
  function Count(s: string, c: char): nat
  {
    if s == [] then 0 else (if s[0] == c then 1 else 0) + Count(s[1..], c)
  }

  /** strings.Split(s, sep) with a one-character separator: one more part
      than there are separators, none of them holding the separator. */
  function SplitOn(s: string, sep: char): (parts: seq<string>)
    ensures |parts| == Count(s, sep) + 1
    ensures forall k :: 0 <= k < |parts| ==> sep !in parts[k]
  {
    if s == [] then [[]]
    else
      var rest := SplitOn(s[1..], sep);
      if s[0] == sep then [[]] + rest
      else [[s[0]] + rest[0]] + rest[1..]
  }

  /** Every character of every part is a character of the text. */
  lemma {:induction false} SplitOnChars(s: string, sep: char, c: char)
    ensures forall k :: 0 <= k < |SplitOn(s, sep)| && c in SplitOn(s, sep)[k] ==> c in s
  {
    if s != [] {
      SplitOnChars(s[1..], sep, c);
      var rest := SplitOn(s[1..], sep);
      assert c in s[1..] ==> c in s;
      if s[0] != sep {
        assert c in [s[0]] + rest[0] ==> c == s[0] || c in rest[0];
      }
    }
  }

  /** strings.Join */
  function Join(parts: seq<string>, sep: string): string
  {
    if parts == [] then []
    else if |parts| == 1 then parts[0]
    else parts[0] + sep + Join(parts[1..], sep)
  }

  lemma JoinConsFirst(c: char, parts: seq<string>, sep: string)
    requires parts != []
    ensures Join([[c] + parts[0]] + parts[1..], sep) == [c] + Join(parts, sep)
  {
    var ps := [[c] + parts[0]] + parts[1..];
    assert ps[1..] == parts[1..];
  }

  /** Splitting and joining back with the same separator gives the text back. */
  lemma {:induction false} SplitOnJoin(s: string, sep: char)
    ensures Join(SplitOn(s, sep), [sep]) == s
  {
    if s != [] {
      var rest := SplitOn(s[1..], sep);
      SplitOnJoin(s[1..], sep);
      if s[0] == sep {
        var ps := [[]] + rest;
        assert ps[1..] == rest;
      } else {
        JoinConsFirst(s[0], rest, [sep]);
      }
    }
  }

  /** Joining separator-free parts and splitting again gives the parts back. */
  lemma {:induction false} JoinSplitOn(parts: seq<string>, sep: char)
    requires parts != []
    requires forall k :: 0 <= k < |parts| ==> sep !in parts[k]
    ensures SplitOn(Join(parts, [sep]), sep) == parts
  {
    if |parts| == 1 {
      SplitOnSepFree(parts[0], sep);
    } else {
      var tail := Join(parts[1..], [sep]);
      JoinSplitOn(parts[1..], sep);
      SplitOnPrefix(parts[0], tail, sep);
      assert [parts[0]] + parts[1..] == parts;
    }
  }

  lemma {:induction false} SplitOnSepFree(s: string, sep: char)
    requires sep !in s
    ensures SplitOn(s, sep) == [s]
  {
    if s != [] {
      SplitOnSepFree(s[1..], sep);
      assert [s[0]] + s[1..] == s;
    }
  }

  lemma {:induction false} SplitOnPrefix(a: string, b: string, sep: char)
    requires sep !in a
    ensures SplitOn(a + [sep] + b, sep) == [a] + SplitOn(b, sep)
  {
    if a == [] {
      assert a + [sep] + b == [sep] + b;
      assert ([sep] + b)[1..] == b;
    } else {
      assert (a + [sep] + b)[1..] == a[1..] + [sep] + b;
      SplitOnPrefix(a[1..], b, sep);
      assert [a[0]] + a[1..] == a;
    }
  }

  /** strings.ReplaceAll for a non-empty pattern: leftmost, non-overlapping. */
  function ReplaceAll(s: string, pat: string, rep: string): string
    requires pat != []
  {
    if |s| < |pat| then s
    else if s[..|pat|] == pat then rep + ReplaceAll(s[|pat|..], pat, rep)
    else [s[0]] + ReplaceAll(s[1..], pat, rep)
  }

  /** An occurrence in a suffix is an occurrence in the whole text, shifted. */
  lemma OccursInSuffix(s: string, a: nat, x: string, j: nat)
    requires a <= |s|
    ensures OccursAt(s[a..], x, j) <==> OccursAt(s, x, a + j)
  {
    if j + |x| <= |s| - a {
      assert s[a..][j..j + |x|] == s[a + j..a + j + |x|];
    }
  }

  /** A suffix holds no occurrence when none starts at or after its start. */
  lemma NoneInSuffix(s: string, a: nat, x: string)
    requires a <= |s|
    requires forall j :: a <= j <= |s| ==> !OccursAt(s, x, j)
    ensures !Contains(s[a..], x)
  {
    forall j | 0 <= j <= |s[a..]|
      ensures !OccursAt(s[a..], x, j)
    {
      OccursInSuffix(s, a, x, j);
    }
  }

  /** A suffix holds only the occurrence at e when the whole text holds
      none other at or after the suffix's start. */
  lemma OnlyOnceInSuffix(s: string, a: nat, x: string, e: nat)
    requires a <= |s|
    requires forall j :: a <= j <= |s| && j != a + e ==> !OccursAt(s, x, j)
    ensures forall j :: 0 <= j <= |s[a..]| && j != e ==> !OccursAt(s[a..], x, j)
  {
    forall j | 0 <= j <= |s[a..]| && j != e
      ensures !OccursAt(s[a..], x, j)
    {
      OccursInSuffix(s, a, x, j);
    }
  }

  /** A text without the pattern is left as it is. */
  lemma {:induction false} ReplaceAllNone(s: string, pat: string, rep: string)
    requires pat != [] && !Contains(s, pat)
    ensures ReplaceAll(s, pat, rep) == s
  {
    if |s| >= |pat| {
      assert !OccursAt(s, pat, 0);
      forall j | 0 <= j <= |s[1..]|
        ensures !OccursAt(s[1..], pat, j)
      {
        OccursInSuffix(s, 1, pat, j);
      }
      ReplaceAllNone(s[1..], pat, rep);
      assert [s[0]] + s[1..] == s;
    }
  }

  /** Where no occurrence starts at 0, ReplaceAll keeps the first character. */
  lemma ReplaceAllSkip(s: string, pat: string, rep: string)
    requires pat != [] && s != [] && !OccursAt(s, pat, 0)
    ensures ReplaceAll(s, pat, rep) == [s[0]] + ReplaceAll(s[1..], pat, rep)
  {
  }

  /** No occurrence before i in s means none before i - 1 in s[1..]. */
  lemma NoneBeforeInTail(s: string, pat: string, i: nat)
    requires 0 < i <= |s|
    requires forall j :: 0 <= j < i ==> !OccursAt(s, pat, j)
    ensures forall j :: 0 <= j < i - 1 ==> !OccursAt(s[1..], pat, j)
  {
    forall j | 0 <= j < i - 1
      ensures !OccursAt(s[1..], pat, j)
    {
      OccursInSuffix(s, 1, pat, j);
    }
  }

  /** One step of ReplaceAllFirst, as a fact about slices: the copied first
      character joins the copied stretch before the occurrence. */
  lemma FirstStepSlices(s: string, i: nat, n: nat, head: string, rep: string, tail: string, rest: string)
    requires 0 < i && i + n <= |s|
    requires head == [s[0]] + tail
    requires tail == s[1..][..i - 1] + rep + rest
    ensures head == s[..i] + rep + rest
  {
    assert s[..i] == [s[0]] + s[1..][..i - 1];
  }

  /** An occurrence at 0 is replaced and the scan goes on after it. */
  lemma ReplaceAllAt(s: string, pat: string, rep: string)
    requires pat != [] && OccursAt(s, pat, 0)
    ensures ReplaceAll(s, pat, rep) == rep + ReplaceAll(s[|pat|..], pat, rep)
  {
    assert s[..|pat|] == pat;
  }

  /** Up to the first occurrence, at i, the text is copied; the occurrence
      is replaced, and the scan goes on after it. */
  lemma {:induction false} ReplaceAllFirst(s: string, pat: string, rep: string, i: nat)
    requires pat != [] && OccursAt(s, pat, i)
    requires forall j :: 0 <= j < i ==> !OccursAt(s, pat, j)
    ensures ReplaceAll(s, pat, rep) == s[..i] + rep + ReplaceAll(s[i + |pat|..], pat, rep)
    decreases i
  {
    if i > 0 {
      NoneBeforeInTail(s, pat, i);
      OccursInSuffix(s, 1, pat, i - 1);
      ReplaceAllFirst(s[1..], pat, rep, i - 1);
      ReplaceAllSkip(s, pat, rep);
      assert s[1..][i - 1 + |pat|..] == s[i + |pat|..];
      FirstStepSlices(s, i, |pat|, ReplaceAll(s, pat, rep), rep,
        ReplaceAll(s[1..], pat, rep), ReplaceAll(s[i + |pat|..], pat, rep));
    } else {
      ReplaceAllAt(s, pat, rep);
      assert s[..0] == [];
    }
  }

  /** With no occurrence inside the head, a text "<head><pat><tail>" becomes
      "<head><rep>" followed by the tail's own replacement. */
  lemma ReplaceAllAfter(s: string, head: string, pat: string, tail: string, rep: string)
    requires pat != [] && s == head + pat + tail
    requires forall j :: 0 <= j < |head| ==> !OccursAt(s, pat, j)
    ensures ReplaceAll(s, pat, rep) == head + rep + ReplaceAll(tail, pat, rep)
  {
    assert s[|head|..|head| + |pat|] == pat;
    ReplaceAllFirst(s, pat, rep, |head|);
    assert s[..|head|] == head;
    assert s[|head| + |pat|..] == tail;
  }

  /** A pattern that occurs only once, right after the head, is replaced
      there and nowhere else. */
  lemma ReplaceAllOnce(s: string, head: string, pat: string, tail: string, rep: string)
    requires pat != [] && s == head + pat + tail
    requires forall j :: 0 <= j <= |s| && j != |head| ==> !OccursAt(s, pat, j)
    ensures ReplaceAll(s, pat, rep) == head + rep + tail
  {
    ReplaceAllAfter(s, head, pat, tail, rep);
    assert s[|head| + |pat|..] == tail;
    NoneInSuffix(s, |head| + |pat|, pat);
    ReplaceAllNone(tail, pat, rep);
  }

  /** A pattern that occurs exactly twice, after the head and after mid,
      is replaced at both places. */
  lemma ReplaceAllTwice(s: string, head: string, pat: string, mid: string, tail: string, rep: string)
    requires pat != [] && s == head + pat + mid + pat + tail
    requires forall j :: 0 <= j < |head| ==> !OccursAt(s, pat, j)
    requires forall j :: 0 <= j <= |mid + pat + tail| && j != |mid| ==> !OccursAt(mid + pat + tail, pat, j)
    ensures ReplaceAll(s, pat, rep) == head + rep + mid + rep + tail
  {
    var t := mid + pat + tail;
    ReplaceAllAfter(s, head, pat, t, rep);
    ReplaceAllOnce(t, mid, pat, tail, rep);
    JoinReplaced(ReplaceAll(s, pat, rep), ReplaceAll(t, pat, rep), head, rep, mid, tail);
  }

  /** A text in which the pattern occurs only after the head and after mid
      meets the hypotheses of ReplaceAllTwice. */
  lemma OccursTwiceOnly(s: string, head: string, pat: string, mid: string, tail: string)
    requires pat != [] && s == head + pat + mid + pat + tail
    requires forall j :: 0 <= j <= |s| && j != |head| && j != |head| + |pat| + |mid| ==> !OccursAt(s, pat, j)
    ensures forall j :: 0 <= j <= |mid + pat + tail| && j != |mid| ==> !OccursAt(mid + pat + tail, pat, j)
  {
    var a := |head| + |pat|;
    assert s[a..] == mid + pat + tail;
    OnlyOnceInSuffix(s, a, pat, |mid|);
  }

  lemma JoinReplaced(x: string, y: string, head: string, rep: string, mid: string, tail: string)
    requires x == head + rep + y && y == mid + rep + tail
    ensures x == head + rep + mid + rep + tail
  {
  }

  lemma {:induction false} ReplaceAllRemovesChar(s: string, c: char, rep: string)
    requires c !in rep
    ensures c !in ReplaceAll(s, [c], rep)
  {
    if |s| >= 1 {
      ReplaceAllRemovesChar(s[1..], c, rep);
      if s[..1] != [c] {
        assert s[0] != c;
      }
    }
  }

  /** Replacing one character by one character changes exactly those positions. */
  lemma {:induction false} ReplaceAllCharAt(s: string, c: char, d: char)
    ensures |ReplaceAll(s, [c], [d])| == |s|
    ensures forall i :: 0 <= i < |s| ==>
      ReplaceAll(s, [c], [d])[i] == (if s[i] == c then d else s[i])
  {
    if |s| >= 1 {
      ReplaceAllCharAt(s[1..], c, d);
      var r := ReplaceAll(s, [c], [d]);
      assert s[..1] == [c] <==> s[0] == c;
      forall i | 1 <= i < |s|
        ensures r[i] == (if s[i] == c then d else s[i])
      {
        assert s[1..][i - 1] == s[i];
      }
    }
  }

  /** Once the pattern occurs, the replacement occurs in the result. */
  lemma {:induction false} ReplaceAllContains(s: string, pat: string, rep: string)
    requires pat != [] && Contains(s, pat)
    ensures Contains(ReplaceAll(s, pat, rep), rep)
  {
    var r := ReplaceAll(s, pat, rep);
    var i :| 0 <= i <= |s| && OccursAt(s, pat, i);
    assert 0 <= i && i + |pat| <= |s|;
    if s[..|pat|] == pat {
      assert OccursAt(r, rep, 0);
    } else {
      assert i != 0;
      assert s[1..][i - 1..i - 1 + |pat|] == s[i..i + |pat|];
      assert OccursAt(s[1..], pat, i - 1);
      ReplaceAllContains(s[1..], pat, rep);
      var r' := ReplaceAll(s[1..], pat, rep);
      var j :| 0 <= j <= |r'| && OccursAt(r', rep, j);
      assert r == [s[0]] + r';
      assert r[j + 1..j + 1 + |rep|] == r'[j..j + |rep|];
      assert OccursAt(r, rep, j + 1);
    }
  }

  /** A real replacement always changes the text. */
  lemma {:induction false} ReplaceAllChanges(s: string, pat: string, rep: string)
    requires pat != [] && pat != rep && Contains(s, pat)
    ensures ReplaceAll(s, pat, rep) != s
  {
    var r := ReplaceAll(s, pat, rep);
    if s[..|pat|] == pat {
      if |rep| == |pat| {
        assert r[..|rep|] == rep;
        assert s[..|pat|] == pat;
      } else {
        ReplaceAllLength(s, pat, rep);
      }
    } else {
      var i :| 0 <= i <= |s| && OccursAt(s, pat, i);
      assert i != 0;
      assert s[1..][i - 1..i - 1 + |pat|] == s[i..i + |pat|];
      assert OccursAt(s[1..], pat, i - 1);
      ReplaceAllChanges(s[1..], pat, rep);
      assert r[1..] == ReplaceAll(s[1..], pat, rep);
    }
  }

  /** Length after replacement, compared with the input, when the first
      occurrence is at the front and the lengths differ. */
  lemma ReplaceAllLength(s: string, pat: string, rep: string)
    requires pat != [] && |pat| <= |s| && s[..|pat|] == pat && |rep| != |pat|
    ensures |ReplaceAll(s, pat, rep)| != |s|
  {
    ReplaceAllLengthDelta(s[|pat|..], pat, rep);
  }

  lemma {:induction false} ReplaceAllLengthDelta(s: string, pat: string, rep: string)
    requires pat != []
    ensures |pat| < |rep| ==> |ReplaceAll(s, pat, rep)| >= |s|
    ensures |pat| > |rep| ==> |ReplaceAll(s, pat, rep)| <= |s|
  {
    if |s| >= |pat| {
      if s[..|pat|] == pat {
        ReplaceAllLengthDelta(s[|pat|..], pat, rep);
      } else {
        ReplaceAllLengthDelta(s[1..], pat, rep);
      }
    }
  }

  /** strings.ToLower restricted to ASCII letters. */
  function ToLowerAscii(s: string): (r: string)
    ensures |r| == |s|
    ensures forall i :: 0 <= i < |s| ==>
      r[i] == (if 'A' <= s[i] <= 'Z' then (s[i] as int + 32) as char else s[i])
  {
    if s == [] then []
    else [if 'A' <= s[0] <= 'Z' then (s[0] as int + 32) as char else s[0]] + ToLowerAscii(s[1..])
  }
}
