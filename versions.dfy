/** The version-prefix check shared by the clone and rename validators
    (commands/clone.go:36-55, commands/rename.go:23-36): a loop that sets a
    `matched` flag and breaks, and a loop that builds the "e.g." list. */
module VersionPrefix {
  import opened GoStrings

  /** v starts with one of the configured prefixes followed by a dash. */
  predicate HasVersionPrefix(prefixes: seq<string>, v: string) {
    exists k :: 0 <= k < |prefixes| && HasPrefix(v, prefixes[k] + "-")
  }

  /** The example shown for one prefix. */
  function Example(p: string): string {
    p + "-xxxx"
  }

  /** The examples the error messages list: one per prefix, in order. */
  function ExampleList(prefixes: seq<string>): seq<string> {
    seq(|prefixes|, k requires 0 <= k < |prefixes| => Example(prefixes[k]))
  }

  /** The `matched` loop: true exactly when some prefix followed by a dash starts v. */
  method MatchesSomePrefix(prefixes: seq<string>, v: string) returns (matched: bool)
    ensures matched <==> HasVersionPrefix(prefixes, v)
  {
    matched := false;
    var k := 0;
    while k < |prefixes|
      invariant 0 <= k <= |prefixes| && !matched
      invariant forall j :: 0 <= j < k ==> !HasPrefix(v, prefixes[j] + "-")
    {
      if HasPrefix(v, prefixes[k] + "-") {
        matched := true;
        break;
      }
      k := k + 1;
    }
  }

  /** The `eg` loop: one example per prefix, in the configured order. */
  method Examples(prefixes: seq<string>) returns (eg: seq<string>)
    ensures |eg| == |prefixes|
    ensures forall k :: 0 <= k < |prefixes| ==> eg[k] == Example(prefixes[k])
    ensures eg == ExampleList(prefixes)
  {
    eg := [];
    for k := 0 to |prefixes|
      invariant |eg| == k
      invariant forall j :: 0 <= j < k ==> eg[j] == Example(prefixes[j])
    {
      eg := eg + [Example(prefixes[k])];
    }
  }

  /** A version accepted by the check is longer than the prefix it starts
      with: it holds the prefix, the dash and whatever follows. */
  lemma AcceptedHasDash(prefixes: seq<string>, v: string)
    requires HasVersionPrefix(prefixes, v)
    ensures v != [] && '-' in v
  {
    var k :| 0 <= k < |prefixes| && HasPrefix(v, prefixes[k] + "-");
    var p := prefixes[k];
    assert v[|p|] == (p + "-")[|p|] == '-';
  }

  /** The empty version is never accepted. */
  lemma EmptyRejected(prefixes: seq<string>)
    ensures !HasVersionPrefix(prefixes, "")
  {
  }

  /** Any prefix followed by a dash and a name is accepted. */
  lemma PrefixedAccepted(prefixes: seq<string>, k: nat, name: string)
    requires k < |prefixes|
    ensures HasVersionPrefix(prefixes, prefixes[k] + "-" + name)
  {
    var v := prefixes[k] + "-" + name;
    assert v[..|prefixes[k] + "-"|] == prefixes[k] + "-";
  }
}
