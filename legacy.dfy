/** The single-file version of the tool (main.go), whose prefix list is
    fixed at feat, online-fix and online-revision (main.go:24-30). Its
    formatter, repoName derivation and getRepoURL are the same code as in
    the commands package and are modelled there; this module states what
    the fixed list makes of the two validators and of the project pattern. */
module Legacy {
  import opened Results
  import opened GoStrings
  import opened Patterns
  import opened VersionPrefix
  import opened ProjectDir
  import Clone
  import Rename
  import Settings

  const LegacyPrefixes: seq<string> := ["feat", "online-fix", "online-revision"]

  /** A version main.go accepts, with the prefix loop unrolled. */
  predicate LegacyVersion(v: string) {
    HasPrefix(v, "feat-") || HasPrefix(v, "online-fix-") || HasPrefix(v, "online-revision-")
  }

  /** The prefix loop over the fixed list accepts exactly the unrolled versions. */
  lemma LegacyVersionIff(v: string)
    ensures HasVersionPrefix(LegacyPrefixes, v) <==> LegacyVersion(v)
  {
    assert LegacyPrefixes[0] + "-" == "feat-";
    assert LegacyPrefixes[1] + "-" == "online-fix-";
    assert LegacyPrefixes[2] + "-" == "online-revision-";
    if LegacyVersion(v) {
      if HasPrefix(v, "feat-") {
        assert HasPrefix(v, LegacyPrefixes[0] + "-");
      } else if HasPrefix(v, "online-fix-") {
        assert HasPrefix(v, LegacyPrefixes[1] + "-");
      } else {
        assert HasPrefix(v, LegacyPrefixes[2] + "-");
      }
    }
  }

  /** A bare prefix, without the dash and a name after it, is no version. */
  lemma BarePrefixRejected()
    ensures !LegacyVersion("feat")
    ensures !LegacyVersion("online-fix")
    ensures !LegacyVersion("online-revision")
  {
    assert "online-fix"[0] != "feat-"[0];
    assert "online-revision"[0] != "feat-"[0];
    assert "online-revision"[7] != "online-fix-"[7];
  }

  /** The list main.go fixes is the default list of the commands package. */
  lemma LegacyIsDefault()
    ensures LegacyPrefixes == Settings.DefaultPrefixes
    ensures |LegacyPrefixes| == 3 && forall k :: 0 <= k < 3 ==> '|' !in LegacyPrefixes[k]
  {
  }

  /** The project pattern built from the list is the one main.go:24
      compiles, whose inner group is "feat|online-fix|online-revision". */
  lemma LegacyPattern()
    ensures Join(LegacyPrefixes, "|") == "feat|online-fix|online-revision"
    ensures PatternSource(LegacyPrefixes) == "((" + "feat|online-fix|online-revision" + ")-[^-]+)-(.+)$"
  {
    var tail := Join(LegacyPrefixes[1..], "|");
    assert Join(LegacyPrefixes[2..], "|") == "online-revision";
    assert tail == "online-fix" + "|" + "online-revision";
    assert Join(LegacyPrefixes, "|") == "feat" + "|" + tail;
  }

  /** cloneCmd.Args (main.go:43-78). */
  method CloneArgs(parseUrl: UrlParser, args: seq<string>) returns (r: Outcome)
    ensures |args| != 3 ==> r == Fail(Clone.WrongArgCount)
    ensures r == Pass <==>
      |args| == 3 && Clone.UrlAccepted(parseUrl, args[0]) && LegacyVersion(args[1]) && args[2] != ""
  {
    r := Clone.ValidateArgs(LegacyPrefixes, parseUrl, args);
    if |args| == 3 {
      LegacyVersionIff(args[1]);
    }
  }

  /** renameProjectCmd.Args (main.go:212-234). */
  method RenameArgs(args: seq<string>) returns (r: Outcome)
    ensures |args| != 1 ==> r == Fail(Rename.WrongArgCount)
    ensures r == Pass <==> |args| == 1 && LegacyVersion(args[0])
  {
    r := Rename.ValidateArgs(LegacyPrefixes, args);
    if |args| == 1 {
      LegacyVersionIff(args[0]);
    }
  }
}
