/** `gitx clone <url> <version> <branch>` (commands/clone.go): the argument
    validator and the name of the directory the repository is cloned into. */
module Clone {
  import opened Results
  import opened GoStrings
  import opened Patterns
  import opened VersionPrefix

  const WrongArgCount: string := "require exactly three argument"
  const EmptyBranch: string := "develop branch cannot be empty"

  function InvalidUrl(url: string, err: string): string {
    "invalid repository URL: [" + url + "], error: " + err
  }

  function EmptyVersion(eg: seq<string>): string {
    "prefix cannot be empty, e.g., " + Join(eg, ", ")
  }

  function BadVersion(eg: seq<string>): string {
    "version must start with one of the prefixes: " + Join(eg, ", ")
  }

  /** A repository URL passes when it is in SSH form or url.Parse accepts it. */
  predicate UrlAccepted(parseUrl: UrlParser, url: string) {
    IsSshRemote(url) || parseUrl(url).Ok?
  }

  /** CloneCmd.Args (commands/clone.go:26-60): the checks run in the order
      count, URL, version, branch, and the first that fails gives the error. */
  method ValidateArgs(prefixes: seq<string>, parseUrl: UrlParser, args: seq<string>) returns (r: Outcome)
    ensures |args| != 3 ==> r == Fail(WrongArgCount)
    ensures |args| == 3 && !UrlAccepted(parseUrl, args[0]) ==>
      r == Fail(InvalidUrl(args[0], parseUrl(args[0]).msg))
    ensures |args| == 3 && UrlAccepted(parseUrl, args[0]) && args[1] == "" ==>
      r == Fail(EmptyVersion(ExampleList(prefixes)))
    ensures |args| == 3 && UrlAccepted(parseUrl, args[0]) && args[1] != "" && !HasVersionPrefix(prefixes, args[1]) ==>
      r == Fail(BadVersion(ExampleList(prefixes)))
    ensures |args| == 3 && UrlAccepted(parseUrl, args[0]) && HasVersionPrefix(prefixes, args[1]) && args[2] == "" ==>
      r == Fail(EmptyBranch)
    ensures r == Pass <==>
      |args| == 3 && UrlAccepted(parseUrl, args[0]) && HasVersionPrefix(prefixes, args[1]) && args[2] != ""
  {
    if |args| != 3 {
      return Fail(WrongArgCount);
    }
    if !IsSshRemote(args[0]) {
      var parsed := parseUrl(args[0]);
      if parsed.Err? {
        return Fail(InvalidUrl(args[0], parsed.msg));
      }
    }
    if args[1] == "" {
      EmptyRejected(prefixes);
      var eg := Examples(prefixes);
      assert eg == ExampleList(prefixes);
      return Fail(EmptyVersion(eg));
    } else {
      var matched := MatchesSomePrefix(prefixes, args[1]);
      if !matched {
        var eg := Examples(prefixes);
        assert eg == ExampleList(prefixes);
        return Fail(BadVersion(eg));
      }
    }
    if args[2] == "" {
      return Fail(EmptyBranch);
    }
    return Pass;
  }

  /** The repository part of the clone directory (commands/clone.go:71-73):
      the path the SSH pattern captures, leading slashes dropped and every
      slash turned into a dash. None for a URL not in SSH form, where the
      source indexes a missing match. */
  function RepoPart(url: string): (r: Option<string>)
    ensures r.Some? <==> IsSshRemote(url)
  {
    match GitRepoPath(url)
    case None => None
    case Some(path) => Some(ReplaceAll(TrimLeftChar(path, '/'), "/", "-"))
  }

  /** The clone directory name: repository part, version and branch joined by dashes. */
  function RepoDirName(url: string, version: string, branch: string): (r: Option<string>)
    ensures r.Some? <==> IsSshRemote(url)
  {
    match RepoPart(url)
    case None => None
    case Some(repo) => Some(repo + "-" + version + "-" + branch)
  }

  /** The repository part holds no slash and no dot. */
  lemma RepoPartFlat(url: string)
    requires IsSshRemote(url)
    ensures '/' !in RepoPart(url).value && '.' !in RepoPart(url).value
  {
    var path := GitRepoPath(url).value;
    GitRepoPathSound(url);
    var trimmed := TrimLeftChar(path, '/');
    ReplaceAllRemovesChar(trimmed, '/', "-");
    ReplaceAllCharAt(trimmed, '/', '-');
    var repo := ReplaceAll(trimmed, "/", "-");
    forall i | 0 <= i < |repo|
      ensures repo[i] != '.'
    {
      assert trimmed[i] == path[|path| - |trimmed| + i];
    }
  }

  /** For the usual remote "git@<host>:<owner>/<name>.git" the repository
      part is "<owner>-<name>". */
  lemma RepoPartOfRemote(host: string, owner: string, name: string)
    requires host != [] && ':' !in host
    requires owner != [] && '/' !in owner && '.' !in owner
    requires '/' !in name && '.' !in name
    ensures RepoPart("git@" + host + ":" + owner + "/" + name + ".git") == Some(owner + "-" + name)
  {
    var path := owner + "/" + name;
    assert "git@" + host + ":" + owner + "/" + name + ".git" == "git@" + host + ":" + path + ".git";
    GitRepoPathOfRemote(host, path);
    assert path[0] == owner[0];
    assert TrimLeftChar(path, '/') == path;
    ReplaceAllCharAt(path, '/', '-');
    var repo := ReplaceAll(path, "/", "-");
    forall i | 0 <= i < |repo|
      ensures repo[i] == (owner + "-" + name)[i]
    {
      if i < |owner| {
        assert path[i] == owner[i];
      } else if i > |owner| {
        assert path[i] == name[i - |owner| - 1];
      }
    }
    assert repo == owner + "-" + name;
  }

  /** The directory name ends with "-<version>-<branch>" after a slash-free repository part. */
  lemma RepoDirNameShape(url: string, version: string, branch: string)
    requires IsSshRemote(url)
    ensures var repo := RepoPart(url).value;
      RepoDirName(url, version, branch) == Some(repo + "-" + version + "-" + branch) && '/' !in repo
  {
    RepoPartFlat(url);
  }
}
