/** `gitx sync` (commands/sync.go): the version and branch read from the
    project directory name, and getRepoURL, which turns the output of
    `git remote -v` into the web address of the repository. */
module Sync {
  import opened Results
  import opened GoStrings
  import opened Patterns
  import opened ProjectDir
  import opened VersionPrefix
  import Clone

  const NotProjectDir: string := "current directory is not a valid project directory"
  const NoOrigin: string := "Failed to get repository URL from git remote"

  function InvalidUrl(remote: string, err: string): string {
    "Invalid repository URL: [" + remote + "], error: " + err
  }

  // ---------------------------------------------------------------------------
  // Version and branch (commands/sync.go:23-33)
  // ---------------------------------------------------------------------------

  /** The version (group 1) and branch (group 3) of a project directory. */
  function ProjectOf(prefixes: seq<string>, dir: string): (r: Result<ProjectName>)
    ensures r.Err? <==> Parse(prefixes, dir).None?
    ensures r.Err? ==> r.msg == NotProjectDir
    ensures r.Ok? ==> (r.value.branch != [] && '\n' !in r.value.branch
      && r.value.version != [] && HasSuffix(dir, r.value.version + "-" + r.value.branch))
  {
    match Parse(prefixes, dir)
    case None => Err(NotProjectDir)
    case Some(n) =>
      ParseSound(prefixes, dir);
      ParsedVersionOccurs(prefixes, dir);
      Ok(n)
  }

  /** A directory made by the clone command reads back as the version and
      branch it was cloned with, provided the version's run holds no dash,
      no match of the project pattern starts inside "<repo>-", and no prefix
      listed before the version's own matches where the version starts. */
  lemma CloneDirReadBack(prefixes: seq<string>, url: string, k: nat, run: string, branch: string)
    requires IsSshRemote(url) && k < |prefixes|
    requires run != [] && '-' !in run && branch != [] && '\n' !in branch
    requires var head := Clone.RepoPart(url).value + "-";
      var dir := head + prefixes[k] + "-" + run + "-" + branch;
      NoMatchBefore(dir, |head|, prefixes)
      && (forall k' :: 0 <= k' < k ==> MatchWith(dir, |head|, prefixes[k']).None?)
    ensures var version := prefixes[k] + "-" + run;
      ProjectOf(prefixes, Clone.RepoDirName(url, version, branch).value) == Ok(ProjectName(version, branch))
  {
    var repo := Clone.RepoPart(url).value;
    var p := prefixes[k];
    assert Alternatives(prefixes) == prefixes;
    assert repo + "-" + (p + "-" + run) + "-" + branch == (repo + "-") + p + "-" + run + "-" + branch;
    ParseOfName(prefixes, repo + "-", k, run, branch);
  }

  /** A repository whose name itself starts with a prefix and a dash is not
      read back: the leftmost match of the project pattern starts inside the
      repository part. Cloning git@h:o/feat-tools.git as version feat-1 on
      branch dev makes o-feat-tools-feat-1-dev, which reads back as version
      feat-tools on branch feat-1-dev. */
  lemma RepoNameMisread(prefixes: seq<string>, host: string, owner: string, k: nat, run: string,
                        version: string, branch: string)
    requires k < |prefixes| && '/' !in prefixes[k] && '.' !in prefixes[k]
    requires host != [] && ':' !in host && owner != [] && '/' !in owner && '.' !in owner
    requires run != [] && '-' !in run && '/' !in run && '.' !in run
    requires '\n' !in version && '\n' !in branch
    requires var dir := owner + "-" + prefixes[k] + "-" + run + "-" + (version + "-" + branch);
      NoMatchBefore(dir, |owner| + 1, prefixes)
      && (forall k' :: 0 <= k' < k ==> MatchWith(dir, |owner| + 1, prefixes[k']).None?)
    ensures var name := prefixes[k] + "-" + run;
      var dir := Clone.RepoDirName("git@" + host + ":" + owner + "/" + name + ".git", version, branch);
      dir.Some? && ProjectOf(prefixes, dir.value) == Ok(ProjectName(name, version + "-" + branch))
  {
    var p := prefixes[k];
    var name := p + "-" + run;
    forall i | 0 <= i < |name|
      ensures name[i] != '/' && name[i] != '.'
    {
      if i < |p| {
        assert name[i] == p[i];
      } else if i > |p| {
        assert name[i] == run[i - |p| - 1];
      }
    }
    Clone.RepoPartOfRemote(host, owner, name);
    assert owner + "-" + name + "-" + version + "-" + branch
      == (owner + "-") + p + "-" + run + "-" + (version + "-" + branch);
    assert Alternatives(prefixes) == prefixes;
    ParseOfName(prefixes, owner + "-", k, run, version + "-" + branch);
  }

  // ---------------------------------------------------------------------------
  // getRepoURL (commands/sync.go:55-74)
  // ---------------------------------------------------------------------------

  /** A line of `git remote -v` that names the origin remote: at least two
      `\s+`-separated fields, the first being "origin". */
  predicate IsOriginLine(line: string) {
    var fields := SplitSpace(line);
    |fields| >= 2 && fields[0] == "origin"
  }

  /** The remote of the first origin line: a single field, free of white space. */
  function OriginRemote(lines: seq<string>): (r: Option<string>)
    ensures r.Some? ==> forall c :: c in r.value ==> !IsRegexSpace(c)
  {
    if lines == [] then None
    else if IsOriginLine(lines[0]) then Some(SplitSpace(lines[0])[1])
    else OriginRemote(lines[1..])
  }

  /** The lines of the `git remote -v` output. */
  function RemoteLines(remoteOutput: string): seq<string> {
    SplitOn(remoteOutput, '\n')
  }

  /** The SSH remote rewritten as an https address: the address starts with
      the scheme and holds no colon after it. */
  function HttpsOfSsh(remote: string): (r: string)
    ensures HasPrefix(r, "https://")
    ensures ':' !in r[|"https://"|..]
  {
    var body := TrimSuffix(TrimPrefix(remote, "git@"), ".git");
    ReplaceAllRemovesChar(body, ':', "/");
    "https://" + ReplaceAll(body, ":", "/")
  }

  /** getRepoURL on the text `git remote -v` printed; url.Parse followed by
      String() is the parameter parseUrl. */
  function RepoUrl(parseUrl: UrlParser, remoteOutput: string): (r: Result<string>)
    ensures r.Err? ==> r.msg == NoOrigin || HasPrefix(r.msg, "Invalid repository URL: [")
    ensures r.Ok? ==> OriginRemote(RemoteLines(remoteOutput)).Some?
  {
    match OriginRemote(RemoteLines(remoteOutput))
    case None => Err(NoOrigin)
    case Some(remote) =>
      if IsSshRemote(remote) then Ok(HttpsOfSsh(remote))
      else
        match parseUrl(remote)
        case Err(e) => Err(InvalidUrl(remote, e))
        case Ok(u) => Ok(TrimSuffix(u, ".git"))
  }

  /** The pipelines page of the repository (commands/sync.go:50). */
  function PipelineUrl(repoUrl: string): (r: string)
    ensures HasPrefix(r, repoUrl) && HasSuffix(r, "/-/pipelines")
  {
    repoUrl + "/-/pipelines"
  }

  /** The remote used is that of the first origin line: every earlier line
      is no origin line. */
  lemma {:induction false} OriginRemoteFirst(lines: seq<string>) returns (k: nat)
    requires OriginRemote(lines).Some?
    ensures k < |lines| && IsOriginLine(lines[k]) && OriginRemote(lines).value == SplitSpace(lines[k])[1]
    ensures forall j :: 0 <= j < k ==> !IsOriginLine(lines[j])
  {
    if IsOriginLine(lines[0]) {
      k := 0;
    } else {
      var k' := OriginRemoteFirst(lines[1..]);
      k := k' + 1;
      assert forall j :: 1 <= j < k ==> lines[j] == lines[1..][j - 1];
    }
  }

  /** There is no remote exactly when no line is an origin line. */
  lemma {:induction false} OriginRemoteNone(lines: seq<string>)
    ensures OriginRemote(lines).None? <==> forall k :: 0 <= k < |lines| ==> !IsOriginLine(lines[k])
  {
    if lines != [] && !IsOriginLine(lines[0]) {
      OriginRemoteNone(lines[1..]);
      assert forall k :: 1 <= k < |lines| ==> lines[k] == lines[1..][k - 1];
    }
  }

  /** getRepoURL fails with "Failed to get ..." exactly when no line of the
      output is an origin line; an SSH remote is always rewritten; any other
      remote fails with url.Parse's error, or is the parsed address with one
      trailing ".git" removed. */
  lemma RepoUrlSpec(parseUrl: UrlParser, remoteOutput: string)
    ensures RepoUrl(parseUrl, remoteOutput) == Err(NoOrigin) <==>
      forall k :: 0 <= k < |RemoteLines(remoteOutput)| ==> !IsOriginLine(RemoteLines(remoteOutput)[k])
    ensures OriginRemote(RemoteLines(remoteOutput)).Some? && IsSshRemote(OriginRemote(RemoteLines(remoteOutput)).value) ==>
      RepoUrl(parseUrl, remoteOutput) == Ok(HttpsOfSsh(OriginRemote(RemoteLines(remoteOutput)).value))
    ensures (OriginRemote(RemoteLines(remoteOutput)).Some? && !IsSshRemote(OriginRemote(RemoteLines(remoteOutput)).value)
      && parseUrl(OriginRemote(RemoteLines(remoteOutput)).value).Err?) ==>
      RepoUrl(parseUrl, remoteOutput) == Err(InvalidUrl(OriginRemote(RemoteLines(remoteOutput)).value,
        parseUrl(OriginRemote(RemoteLines(remoteOutput)).value).msg))
    ensures (OriginRemote(RemoteLines(remoteOutput)).Some? && !IsSshRemote(OriginRemote(RemoteLines(remoteOutput)).value)
      && parseUrl(OriginRemote(RemoteLines(remoteOutput)).value).Ok?) ==>
      RepoUrl(parseUrl, remoteOutput).Ok?
      && (var u := parseUrl(OriginRemote(RemoteLines(remoteOutput)).value).value;
          var v := RepoUrl(parseUrl, remoteOutput).value;
          if HasSuffix(u, ".git") then u == v + ".git" else v == u)
  {
    var lines := RemoteLines(remoteOutput);
    OriginRemoteNone(lines);
    if OriginRemote(lines).Some? {
      var remote := OriginRemote(lines).value;
      var r := RepoUrl(parseUrl, remoteOutput);
      assert r.Err? ==> r.msg[0] == 'I' by {
        if r.Err? {
          assert r == Err(InvalidUrl(remote, parseUrl(remote).msg));
        }
      }
      assert NoOrigin[0] == 'F';
    }
  }

  lemma StripRemote(host: string, path: string)
    ensures TrimSuffix(TrimPrefix("git@" + host + ":" + path + ".git", "git@"), ".git") == host + ":" + path
  {
    var mid := host + ":" + path;
    assert "git@" + host + ":" + path + ".git" == "git@" + (mid + ".git");
    assert TrimPrefix("git@" + (mid + ".git"), "git@") == mid + ".git";
  }

  lemma ReplaceColon(host: string, path: string)
    requires ':' !in host && ':' !in path
    ensures ReplaceAll(host + ":" + path, ":", "/") == host + "/" + path
  {
    var mid := host + ":" + path;
    ReplaceAllCharAt(mid, ':', '/');
    var out := ReplaceAll(mid, ":", "/");
    forall i | 0 <= i < |out|
      ensures out[i] == (host + "/" + path)[i]
    {
      if i < |host| {
        assert mid[i] == host[i];
      } else if i > |host| {
        assert mid[i] == path[i - |host| - 1];
      }
    }
  }

  /** "git@<host>:<path>.git" becomes "https://<host>/<path>". */
  lemma HttpsOfRemote(host: string, path: string)
    requires ':' !in host && ':' !in path
    ensures HttpsOfSsh("git@" + host + ":" + path + ".git") == "https://" + host + "/" + path
  {
    StripRemote(host, path);
    ReplaceColon(host, path);
    assert "https://" + (host + "/" + path) == "https://" + host + "/" + path;
  }

  lemma {:induction false} FieldsFromWord(s: string, start: nat, i: nat, e: nat)
    requires start <= i <= e <= |s|
    requires forall k :: start <= k < e ==> !IsRegexSpace(s[k])
    requires e == |s| || IsRegexSpace(s[e])
    ensures FieldsFrom(s, start, i)[0] == s[start..e]
    ensures e < |s| ==> FieldsFrom(s, start, i)[1..] == FieldsFrom(s, RunEnd(s, e), RunEnd(s, e))
    decreases e - i
  {
    if i < e {
      FieldsFromWord(s, start, i + 1, e);
    }
  }

  /** A line as `git remote -v` prints it, "origin", white space, the remote,
      then nothing or white space and more, is an origin line for that remote. */
  lemma OriginLineOf(sep: char, remote: string, rest: string)
    requires IsRegexSpace(sep)
    requires remote != [] && forall k :: 0 <= k < |remote| ==> !IsRegexSpace(remote[k])
    requires rest == [] || IsRegexSpace(rest[0])
    ensures IsOriginLine("origin" + [sep] + remote + rest)
    ensures SplitSpace("origin" + [sep] + remote + rest)[1] == remote
  {
    var line := "origin" + [sep] + remote + rest;
    FieldsFromWord(line, 0, 0, 6);
    assert line[0..6] == "origin";
    var r := RunEnd(line, 6);
    assert line[7] == remote[0];
    assert r == 7;
    var e := 7 + |remote|;
    forall k | 7 <= k < e
      ensures !IsRegexSpace(line[k])
    {
      assert line[k] == remote[k - 7];
    }
    if e < |line| {
      assert line[e] == rest[0];
    }
    FieldsFromWord(line, 7, 7, e);
    assert line[7..e] == remote;
  }
}
