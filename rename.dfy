/** `gitx rename <new-version>` (commands/rename.go): the argument validator
    and the new directory name and path of the renamed project. */
module Rename {
  import opened Results
  import opened GoStrings
  import opened VersionPrefix
  import opened ProjectDir

  const WrongArgCount: string := "require exactly one argument"
  const EmptyName: string := "new project name cannot be empty"
  const NotProjectDir: string := "current directory is not a valid project directory"
  const SameName: string := "new project name is the same as the current one"

  function BadName(eg: seq<string>): string {
    "new project name must start with one of the prefixes: " + Join(eg, ", ")
  }

  /** RenameCmd.Args (commands/rename.go:16-38): count, emptiness, then prefix. */
  method ValidateArgs(prefixes: seq<string>, args: seq<string>) returns (r: Outcome)
    ensures |args| != 1 ==> r == Fail(WrongArgCount)
    ensures |args| == 1 && args[0] == "" ==> r == Fail(EmptyName)
    ensures |args| == 1 && args[0] != "" && !HasVersionPrefix(prefixes, args[0]) ==>
      r == Fail(BadName(ExampleList(prefixes)))
    ensures r == Pass <==> |args| == 1 && HasVersionPrefix(prefixes, args[0])
  {
    if |args| != 1 {
      return Fail(WrongArgCount);
    }
    if args[0] == "" {
      EmptyRejected(prefixes);
      return Fail(EmptyName);
    }
    var matched := MatchesSomePrefix(prefixes, args[0]);
    if !matched {
      var eg := Examples(prefixes);
      return Fail(BadName(eg));
    }
    return Pass;
  }

  /** path.Join(parent, name) for a parent that path.Dir returned (already
      clean) and a name without slashes; the parent "." is dropped, as
      path.Clean drops it. */
  function JoinPath(parent: string, name: string): (r: string)
    ensures HasSuffix(r, name)
    ensures parent != "" && parent != "." ==> HasPrefix(r, parent)
  {
    if parent == "" || parent == "." then name
    else if parent == "/" then "/" + name
    else parent + "/" + name
  }

  /** Where the project moves. */
  datatype Target = Target(newDir: string, newPath: string)

  /** commands/rename.go:45-58: dir is path.Base(pwd) and parent is path.Dir(pwd).
      The current version is group 1 of the project pattern; every occurrence
      of it in the directory name is replaced by the new version. */
  function RenameTarget(prefixes: seq<string>, parent: string, dir: string, newVersion: string): (r: Result<Target>)
    ensures r.Err? ==> r.msg == NotProjectDir || r.msg == SameName
    ensures Parse(prefixes, dir).None? ==> r == Err(NotProjectDir)
    ensures Parse(prefixes, dir).Some? && newVersion == Parse(prefixes, dir).value.version ==> r == Err(SameName)
    ensures r.Ok? ==> Contains(r.value.newDir, newVersion) && r.value.newDir != dir
    ensures r.Ok? ==> HasSuffix(r.value.newPath, r.value.newDir)
  {
    match Parse(prefixes, dir)
    case None => Err(NotProjectDir)
    case Some(n) =>
      if newVersion == n.version then Err(SameName)
      else
        ParsedVersionOccurs(prefixes, dir);
        var newDir := ReplaceAll(dir, n.version, newVersion);
        ReplaceAllContains(dir, n.version, newVersion);
        ReplaceAllChanges(dir, n.version, newVersion);
        Ok(Target(newDir, JoinPath(parent, newDir)))
  }

  /** Once the name is parsed, the rename replaces the version everywhere. */
  lemma RenameTargetOf(prefixes: seq<string>, parent: string, dir: string, newVersion: string, n: ProjectName)
    requires Parse(prefixes, dir) == Some(n) && newVersion != n.version
    ensures var newDir := ReplaceAll(dir, n.version, newVersion);
      RenameTarget(prefixes, parent, dir, newVersion) == Ok(Target(newDir, JoinPath(parent, newDir)))
  {
  }

  /** The rename read back: a name parsed as "<head><v>-<branch>"
      (ProjectDir.ParseOfName says when), in which the current version v
      occurs only where the project part starts, becomes
      "<head><new>-<branch>". */
  lemma RenameReadBack(prefixes: seq<string>, parent: string, head: string, v: string, branch: string,
                       dir: string, newVersion: string)
    requires dir == head + v + "-" + branch && Parse(prefixes, dir) == Some(ProjectName(v, branch))
    requires forall j :: 0 <= j <= |dir| && j != |head| ==> !OccursAt(dir, v, j)
    requires newVersion != v
    ensures var newDir := head + newVersion + "-" + branch;
      RenameTarget(prefixes, parent, dir, newVersion) == Ok(Target(newDir, JoinPath(parent, newDir)))
  {
    RenameTargetOf(prefixes, parent, dir, newVersion, ProjectName(v, branch));
    ReplaceAllOnce(dir, head, v, "-" + branch, newVersion);
    assert head + newVersion + ("-" + branch) == head + newVersion + "-" + branch;
  }

  /** strings.ReplaceAll is not limited to the version part: a branch that
      starts with the current version is renamed with it, so
      "<head><v>-<v>-<rest>" becomes "<head><new>-<new>-<rest>" (for example
      o-feat-1-feat-1-dev, parsed as version feat-1 and branch feat-1-dev,
      renamed to feat-2 gives o-feat-2-feat-2-dev, whose branch reads
      feat-2-dev). */
  lemma RenameRewritesBranch(prefixes: seq<string>, parent: string, head: string, v: string, rest: string,
                             dir: string, newVersion: string)
    requires dir == head + v + "-" + v + "-" + rest
    requires Parse(prefixes, dir) == Some(ProjectName(v, v + "-" + rest))
    requires forall j :: 0 <= j <= |dir| && j != |head| && j != |head| + |v| + 1 ==> !OccursAt(dir, v, j)
    requires newVersion != v
    ensures var newDir := head + newVersion + "-" + newVersion + "-" + rest;
      RenameTarget(prefixes, parent, dir, newVersion) == Ok(Target(newDir, JoinPath(parent, newDir)))
  {
    RenameTargetOf(prefixes, parent, dir, newVersion, ProjectName(v, v + "-" + rest));
    assert dir == head + v + "-" + v + ("-" + rest);
    OccursTwiceOnly(dir, head, v, "-", "-" + rest);
    ReplaceAllTwice(dir, head, v, "-", "-" + rest, newVersion);
    assert head + newVersion + "-" + newVersion + ("-" + rest) == head + newVersion + "-" + newVersion + "-" + rest;
  }

  /** The validator lets a "/" through, so a new version such as "feat-1/x"
      puts the target in a subdirectory below the parent rather than beside
      the old directory. */
  lemma SlashedVersionNests(prefixes: seq<string>, parent: string, dir: string, newVersion: string)
    requires parent != "" && parent != "." && parent != "/" && '/' in newVersion
    requires RenameTarget(prefixes, parent, dir, newVersion).Ok?
    ensures var t := RenameTarget(prefixes, parent, dir, newVersion).value;
      '/' in t.newDir && HasPrefix(t.newPath, parent + "/")
  {
    var t := RenameTarget(prefixes, parent, dir, newVersion).value;
    assert t.newPath == JoinPath(parent, t.newDir);
    NestedPath(parent, t.newDir, newVersion);
  }

  /** A name that holds a version with a "/" holds a "/", and joined to a
      parent other than "", "." and "/" it lies below parent + "/". */
  lemma NestedPath(parent: string, name: string, version: string)
    requires parent != "" && parent != "." && parent != "/" && '/' in version
    requires Contains(name, version)
    ensures '/' in name && HasPrefix(JoinPath(parent, name), parent + "/")
  {
    var i :| 0 <= i <= |name| && OccursAt(name, version, i);
    var j :| 0 <= j < |version| && version[j] == '/';
    assert name[i + j] == '/';
    assert JoinPath(parent, name)[..|parent| + 1] == parent + "/";
  }
}
