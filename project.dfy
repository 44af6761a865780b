/** regexpProject = `((p1|...|pn)-[^-]+)-(.+)$`, built from the prefix list
    at commands/config.go:168 (fixed at main.go:24), written out as a
    leftmost-first matcher that returns groups 1 and 3. */
module ProjectDir {
  import opened Results
  import opened GoStrings
  import opened VersionPrefix

  /** Group 1 and group 3 of a project directory name. */
  datatype ProjectName = ProjectName(version: string, branch: string)

  /** The pattern source compiled at init. */
  function PatternSource(prefixes: seq<string>): string {
    "((" + Join(prefixes, "|") + ")-[^-]+)-(.+)$"
  }

  /** The alternatives of the inner group, in order; an empty prefix list
      leaves the group empty, which matches the empty string. */
  function Alternatives(prefixes: seq<string>): seq<string> {
    if prefixes == [] then [""] else prefixes
  }

  /** The match that starts at i using alternative p. After "p-", `[^-]+`
      runs up to the next dash, which must come after at least one
      character and is the dash the pattern needs; `(.+)$` then takes the
      rest of the text, which must be non-empty and hold no newline. */
  function MatchWith(s: string, i: nat, p: string): Option<ProjectName>
  {
    if !OccursAt(s, p, i) then None
    else
      var a := i + |p|;
      if a >= |s| || s[a] != '-' then None
      else
        match IndexFromDash(s, a + 1)
        case None => None
        case Some(j) =>
          if j == a + 1 || j + 1 >= |s| || '\n' in s[j + 1..] then None
          else Some(ProjectName(s[i..j], s[j + 1..]))
  }

  /** Position of the first dash in s at or after i. */
  function IndexFromDash(s: string, i: nat): (r: Option<nat>)
    ensures r.Some? ==> i <= r.value < |s| && s[r.value] == '-'
    ensures r.Some? ==> forall k :: i <= k < r.value ==> s[k] != '-'
    ensures r.None? ==> forall k :: i <= k < |s| ==> s[k] != '-'
    decreases |s| - i
  {
    if i >= |s| then None
    else if s[i] == '-' then Some(i)
    else IndexFromDash(s, i + 1)
  }

  /** The first alternative, in order, that gives a match starting at i. */
  function MatchAt(s: string, i: nat, alts: seq<string>): Option<ProjectName>
  {
    if alts == [] then None
    else if MatchWith(s, i, alts[0]).Some? then MatchWith(s, i, alts[0])
    else MatchAt(s, i, alts[1..])
  }

  /** The leftmost start at or after i that gives a match. */
  function MatchFrom(s: string, i: nat, alts: seq<string>): Option<ProjectName>
    decreases |s| + 1 - i
  {
    if i > |s| then None
    else if MatchAt(s, i, alts).Some? then MatchAt(s, i, alts)
    else MatchFrom(s, i + 1, alts)
  }

  /** j is the first start at or after i that gives a match, and r is it. */
  predicate FirstMatchAt(s: string, i: nat, j: nat, alts: seq<string>, r: Option<ProjectName>) {
    i <= j <= |s| && MatchAt(s, j, alts) == r && forall j' :: i <= j' < j ==> MatchAt(s, j', alts).None?
  }

  /** MatchFrom is the leftmost-first search: it fails exactly when no start
      at or after i matches, and otherwise returns the match at the first
      start that gives one. */
  lemma {:induction false} MatchFromLeftmost(s: string, i: nat, alts: seq<string>)
    ensures MatchFrom(s, i, alts).None? ==> forall j :: i <= j <= |s| ==> MatchAt(s, j, alts).None?
    ensures MatchFrom(s, i, alts).Some? ==> exists j :: FirstMatchAt(s, i, j, alts, MatchFrom(s, i, alts))
    decreases |s| + 1 - i
  {
    if i <= |s| && MatchAt(s, i, alts).None? {
      var n: nat := i + 1;
      MatchFromLeftmost(s, n, alts);
      if MatchFrom(s, n, alts).Some? {
        var j :| FirstMatchAt(s, n, j, alts, MatchFrom(s, n, alts));
        assert FirstMatchAt(s, i, j, alts, MatchFrom(s, i, alts));
      }
    } else if i <= |s| {
      assert FirstMatchAt(s, i, i, alts, MatchFrom(s, i, alts));
    }
  }

  /** regexpProject.FindStringSubmatch(dir): groups 1 and 3, or None when
      MatchString(dir) is false. */
  function Parse(prefixes: seq<string>, dir: string): (r: Option<ProjectName>)
    ensures r.Some? ==> r.value.version != [] && r.value.branch != [] && '\n' !in r.value.branch
    ensures r.Some? ==> HasSuffix(dir, r.value.version + "-" + r.value.branch)
  {
    var alts := Alternatives(prefixes);
    if MatchFrom(dir, 0, alts).Some? then
      MatchFromShape(dir, 0, alts);
      MatchFrom(dir, 0, alts)
    else None
  }

  /** No match of the pattern starts before position n of s. */
  predicate NoMatchBefore(s: string, n: nat, alts: seq<string>) {
    forall i :: 0 <= i < n ==> MatchAt(s, i, alts).None?
  }

  /** A version made of the prefix p, a dash, and a non-empty run without dashes. */
  predicate VersionShape(v: string, p: string) {
    HasPrefix(v, p + "-") && |v| > |p| + 1 && '-' !in v[|p| + 1..]
  }

  /** What one match is: a version of the right shape, a non-empty branch
      without newline, and the two joined by a dash at the end of the text. */
  predicate MatchShape(s: string, n: ProjectName, p: string) {
    VersionShape(n.version, p) && n.branch != [] && '\n' !in n.branch
    && HasSuffix(s, n.version + "-" + n.branch)
  }

  lemma MatchWithSound(s: string, i: nat, p: string)
    requires MatchWith(s, i, p).Some?
    ensures MatchShape(s, MatchWith(s, i, p).value, p)
  {
    var a := i + |p|;
    var j := IndexFromDash(s, a + 1).value;
    var n := MatchWith(s, i, p).value;
    assert n.version == s[i..j];
    assert s[i..j][..|p|] == p && s[i..j][|p|] == '-';
    assert n.version[..|p + "-"|] == p + "-";
    forall k | |p| + 1 <= k < |n.version|
      ensures n.version[k] != '-'
    {
      assert n.version[k] == s[i + k];
    }
    assert s[|s| - |n.version + "-" + n.branch|..] == s[i..j] + "-" + s[j + 1..];
  }

  lemma {:induction false} MatchAtSound(s: string, i: nat, alts: seq<string>)
    requires MatchAt(s, i, alts).Some?
    ensures exists k :: 0 <= k < |alts| && MatchShape(s, MatchAt(s, i, alts).value, alts[k])
  {
    if MatchWith(s, i, alts[0]).Some? {
      MatchWithSound(s, i, alts[0]);
    } else {
      MatchAtSound(s, i, alts[1..]);
      var k :| 0 <= k < |alts[1..]| && MatchShape(s, MatchAt(s, i, alts).value, alts[1..][k]);
      assert alts[1..][k] == alts[k + 1];
    }
  }

  lemma {:induction false} MatchFromSound(s: string, i: nat, alts: seq<string>)
    requires MatchFrom(s, i, alts).Some?
    ensures exists k :: 0 <= k < |alts| && MatchShape(s, MatchFrom(s, i, alts).value, alts[k])
    decreases |s| + 1 - i
  {
    if MatchAt(s, i, alts).Some? {
      MatchAtSound(s, i, alts);
    } else {
      MatchFromSound(s, i + 1, alts);
    }
  }

  lemma MatchFromShape(s: string, i: nat, alts: seq<string>)
    requires MatchFrom(s, i, alts).Some?
    ensures var n := MatchFrom(s, i, alts).value;
      n.version != [] && n.branch != [] && '\n' !in n.branch && HasSuffix(s, n.version + "-" + n.branch)
  {
    MatchFromSound(s, i, alts);
    var k :| 0 <= k < |alts| && MatchShape(s, MatchFrom(s, i, alts).value, alts[k]);
  }

  /** A parsed directory name ends with "<version>-<branch>", where the version
      is one of the alternatives, a dash and a dash-free run, and the branch
      is non-empty without newline. */
  lemma ParseSound(prefixes: seq<string>, dir: string)
    requires Parse(prefixes, dir).Some?
    ensures exists k :: (0 <= k < |Alternatives(prefixes)| &&
      MatchShape(dir, Parse(prefixes, dir).value, Alternatives(prefixes)[k]))
  {
    MatchFromSound(dir, 0, Alternatives(prefixes));
  }

  /** The version read from a directory name passes the version check of
      the clone and rename validators. */
  lemma ParsedVersionAccepted(prefixes: seq<string>, dir: string)
    requires prefixes != [] && Parse(prefixes, dir).Some?
    ensures HasVersionPrefix(prefixes, Parse(prefixes, dir).value.version)
  {
    ParseSound(prefixes, dir);
  }

  /** A parsed version is never empty, and the text holds it. */
  lemma ParsedVersionOccurs(prefixes: seq<string>, dir: string)
    requires Parse(prefixes, dir).Some?
    ensures var v := Parse(prefixes, dir).value.version;
      v != [] && Contains(dir, v)
  {
    ParseSound(prefixes, dir);
    var n := Parse(prefixes, dir).value;
    var tail := n.version + "-" + n.branch;
    var i := |dir| - |tail|;
    assert dir[i..i + |n.version|] == tail[..|n.version|] == n.version;
    assert OccursAt(dir, n.version, i);
  }

  lemma {:induction false} MatchAtNone(s: string, i: nat, alts: seq<string>)
    requires forall k :: 0 <= k < |alts| ==> !OccursAt(s, alts[k], i)
    ensures MatchAt(s, i, alts).None?
  {
    if alts != [] {
      assert !OccursAt(s, alts[0], i);
      MatchAtNone(s, i, alts[1..]);
    }
  }

  lemma {:induction false} MatchAtFirst(s: string, i: nat, alts: seq<string>, k: nat)
    requires k < |alts| && MatchWith(s, i, alts[k]).Some?
    requires forall k' :: 0 <= k' < k ==> MatchWith(s, i, alts[k']).None?
    ensures MatchAt(s, i, alts) == MatchWith(s, i, alts[k])
  {
    if k > 0 {
      assert MatchWith(s, i, alts[0]).None?;
      MatchAtFirst(s, i, alts[1..], k - 1);
    }
  }

  lemma {:induction false} MatchFromSkip(s: string, i: nat, start: nat, alts: seq<string>)
    requires i <= start <= |s|
    requires forall i' :: i <= i' < start ==> MatchAt(s, i', alts).None?
    ensures MatchFrom(s, i, alts) == MatchFrom(s, start, alts)
    decreases start - i
  {
    if i < start {
      MatchFromSkip(s, i + 1, start, alts);
    }
  }

  /** Reading back a directory name "<head><p>-<run>-<branch>": when no
      match of the pattern starts inside head and no earlier alternative
      matches where p starts, the version is "<p>-<run>" and the branch is
      the rest. */
  lemma ParseOfName(prefixes: seq<string>, head: string, k: nat, run: string, branch: string)
    requires k < |Alternatives(prefixes)|
    requires run != [] && '-' !in run && branch != [] && '\n' !in branch
    requires var p := Alternatives(prefixes)[k];
      var dir := head + p + "-" + run + "-" + branch;
      NoMatchBefore(dir, |head|, Alternatives(prefixes))
      && (forall k' :: 0 <= k' < k ==> MatchWith(dir, |head|, Alternatives(prefixes)[k']).None?)
    ensures var p := Alternatives(prefixes)[k];
      Parse(prefixes, head + p + "-" + run + "-" + branch) == Some(ProjectName(p + "-" + run, branch))
  {
    var alts := Alternatives(prefixes);
    var p := alts[k];
    var dir := head + p + "-" + run + "-" + branch;
    var i := |head|;
    var a := i + |p|;
    var j := a + 1 + |run|;
    assert dir[i..a] == p;
    assert dir[a] == '-';
    forall m | a + 1 <= m < j
      ensures dir[m] != '-'
    {
      assert dir[m] == run[m - a - 1];
    }
    assert dir[j] == '-';
    assert IndexFromDash(dir, a + 1) == Some(j);
    assert dir[j + 1..] == branch;
    assert dir[i..j] == p + "-" + run;
    MatchAtFirst(dir, i, alts, k);
    MatchFromSkip(dir, 0, i, alts);
  }

  /** A version that itself holds a dash passes the clone validator but is
      not read back: "<p>-<run>-<more>" cloned with branch b gives the
      version "<p>-<run>" and the branch "<more>-b". */
  lemma DashedVersionMisread(prefixes: seq<string>, head: string, k: nat, run: string, more: string, b: string)
    requires k < |prefixes|
    requires run != [] && '-' !in run && more != [] && '\n' !in more && '\n' !in b
    requires var p := prefixes[k];
      var dir := head + p + "-" + run + "-" + more + "-" + b;
      NoMatchBefore(dir, |head|, prefixes)
      && (forall k' :: 0 <= k' < k ==> MatchWith(dir, |head|, prefixes[k']).None?)
    ensures var p := prefixes[k];
      HasVersionPrefix(prefixes, p + "-" + run + "-" + more)
      && Parse(prefixes, head + (p + "-" + run + "-" + more) + "-" + b)
         == Some(ProjectName(p + "-" + run, more + "-" + b))
  {
    var p := prefixes[k];
    assert Alternatives(prefixes) == prefixes;
    assert head + p + "-" + run + "-" + (more + "-" + b) == head + p + "-" + run + "-" + more + "-" + b;
    PrefixedAccepted(prefixes, k, run + "-" + more);
    assert p + "-" + (run + "-" + more) == p + "-" + run + "-" + more;
    assert head + (p + "-" + run + "-" + more) + "-" + b == head + p + "-" + run + "-" + (more + "-" + b);
    ParseOfName(prefixes, head, k, run, more + "-" + b);
  }
}
