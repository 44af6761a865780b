/** `gitx config` (commands/config.go): the argument validator, the value
    parsing of `config set`, and the defaulting that init applies to the
    loaded configuration. */
module Settings {
  import opened Results
  import opened GoStrings
  import opened ProjectDir

  /** The keys `config set` accepts (commands/config.go:142-148). */
  const ValidKeys: set<string> :=
    {"workspace_dir", "default_ide", "open_in_ide_after_use", "common_projects", "prefix"}

  /** The prefix list used when the configuration names none (commands/config.go:149-153). */
  const DefaultPrefixes: seq<string> := ["feat", "online-fix", "online-revision"]

  const DefaultIde: string := "code"

  const SetArgCount: string := "set requires exactly two arguments: <key> <value>"
  const ViewArgCount: string := "view does not take any arguments"

  function InvalidKey(key: string): string {
    "invalid config key: " + key
  }

  function InvalidArgument(arg: string): string {
    "invalid argument: " + arg
  }

  function InvalidBool(value: string): string {
    "invalid value for open_in_ide_after_use: " + value
  }

  // ---------------------------------------------------------------------------
  // ConfigCmd.Args (commands/config.go:18-39)
  // ---------------------------------------------------------------------------

  /** No arguments, `view` alone, or `set` with a valid key and a value. */
  predicate WellFormedArgs(args: seq<string>) {
    args == [] || args == ["view"] || (|args| == 3 && args[0] == "set" && args[1] in ValidKeys)
  }

  function ValidateArgs(args: seq<string>): (r: Outcome)
    ensures r == Pass <==> WellFormedArgs(args)
    ensures args != [] && args[0] == "set" && |args| != 3 ==> r == Fail(SetArgCount)
    ensures |args| == 3 && args[0] == "set" && args[1] !in ValidKeys ==> r == Fail(InvalidKey(args[1]))
    ensures args != [] && args[0] == "view" && |args| != 1 ==> r == Fail(ViewArgCount)
    ensures args != [] && args[0] != "set" && args[0] != "view" ==> r == Fail(InvalidArgument(args[0]))
  {
    if args == [] then Pass
    else if args[0] == "set" then
      if |args| != 3 then Fail(SetArgCount)
      else if args[1] !in ValidKeys then Fail(InvalidKey(args[1]))
      else Pass
    else if args[0] == "view" then
      if |args| != 1 then Fail(ViewArgCount) else Pass
    else Fail(InvalidArgument(args[0]))
  }

  // ---------------------------------------------------------------------------
  // Values of `config set` (commands/config.go:95-126)
  // ---------------------------------------------------------------------------

  /** The Config record; a list is None where Go holds a nil slice. */
  datatype Fields = Fields(
    workspaceDir: string,
    defaultIDE: string,
    openInIDEAfterUse: bool,
    commonProjects: Option<seq<string>>,
    prefix: Option<seq<string>>)

  /** The elements of a list field, nil read as empty. */
  function ListOf(o: Option<seq<string>>): seq<string> {
    if o.Some? then o.value else []
  }

  /** strings.ToLower(value) compared with "true" and "false". Only ASCII
      letters can lower to the letters of those two words. */
  function ParseBool(value: string): Option<bool> {
    var lower := ToLowerAscii(value);
    if lower == "true" then Some(true)
    else if lower == "false" then Some(false)
    else None
  }

  /** A comma-separated value split on every comma, each element trimmed. */
  function TrimmedList(value: string): (items: seq<string>)
    ensures |items| == Count(value, ',') + 1
  {
    var parts := SplitOn(value, ',');
    seq(|parts|, i requires 0 <= i < |parts| => TrimSpace(parts[i]))
  }

  /** The nil lists replaced by empty ones before the record is written back. */
  function Normalised(f: Fields): Fields {
    f.(commonProjects := Some(ListOf(f.commonProjects)), prefix := Some(ListOf(f.prefix)))
  }

  /** The record after `config set key value`, or the error that ends the
      process. A key outside the switch leaves every field as it was. */
  function Assign(f: Fields, key: string, value: string): (r: Result<Fields>)
    ensures r.Err? ==> key == "open_in_ide_after_use" && r.msg == InvalidBool(value)
    ensures r.Ok? ==> r.value.commonProjects.Some? && r.value.prefix.Some?
  {
    if key == "workspace_dir" then Ok(Normalised(f.(workspaceDir := value)))
    else if key == "default_ide" then Ok(Normalised(f.(defaultIDE := value)))
    else if key == "open_in_ide_after_use" then
      match ParseBool(value)
      case None => Err(InvalidBool(value))
      case Some(b) => Ok(Normalised(f.(openInIDEAfterUse := b)))
    else if key == "common_projects" then Ok(Normalised(f.(commonProjects := Some(TrimmedList(value)))))
    else if key == "prefix" then Ok(Normalised(f.(prefix := Some(TrimmedList(value)))))
    else Ok(Normalised(f))
  }

  /** The configuration record that `config set` edits in place. */
  class Config {
    var workspaceDir: string
    var defaultIDE: string
    var openInIDEAfterUse: bool
    var commonProjects: Option<seq<string>>
    var prefix: Option<seq<string>>

    constructor (f: Fields)
      ensures Snapshot() == f
    {
      workspaceDir := f.workspaceDir;
      defaultIDE := f.defaultIDE;
      openInIDEAfterUse := f.openInIDEAfterUse;
      commonProjects := f.commonProjects;
      prefix := f.prefix;
    }

    function Snapshot(): Fields
      reads this
    {
      Fields(workspaceDir, defaultIDE, openInIDEAfterUse, commonProjects, prefix)
    }

    /** The `set` branch: the switch on the key, then the nil lists replaced
        by empty ones. On an invalid boolean the process ends and nothing changes. */
    method Set(key: string, value: string) returns (r: Outcome)
      modifies this
      ensures r.Fail? <==> Assign(old(Snapshot()), key, value).Err?
      ensures r.Fail? ==> r.msg == InvalidBool(value) && Snapshot() == old(Snapshot())
      ensures r.Pass? ==> Snapshot() == Assign(old(Snapshot()), key, value).value
    {
      if key == "workspace_dir" {
        workspaceDir := value;
      } else if key == "default_ide" {
        defaultIDE := value;
      } else if key == "open_in_ide_after_use" {
        var lower := ToLowerAscii(value);
        if lower == "true" {
          openInIDEAfterUse := true;
        } else if lower == "false" {
          openInIDEAfterUse := false;
        } else {
          return Fail(InvalidBool(value));
        }
      } else if key == "common_projects" {
        var projects := SplitTrimmed(value);
        commonProjects := Some(projects);
      } else if key == "prefix" {
        var prefixes := SplitTrimmed(value);
        prefix := Some(prefixes);
      }
      if prefix.None? {
        prefix := Some([]);
      }
      if commonProjects.None? {
        commonProjects := Some([]);
      }
      return Pass;
    }
  }

  /** strings.Split on ',' followed by the loop that trims each element of
      the slice in place. */
  method SplitTrimmed(value: string) returns (items: seq<string>)
    ensures items == TrimmedList(value)
  {
    var parts := SplitOn(value, ',');
    var a := new string[|parts|](i requires 0 <= i < |parts| => parts[i]);
    for i := 0 to a.Length
      invariant forall k :: 0 <= k < i ==> a[k] == TrimSpace(parts[k])
      invariant forall k :: i <= k < a.Length ==> a[k] == parts[k]
    {
      a[i] := TrimSpace(a[i]);
    }
    items := a[..];
  }

  /** Each element is the trimmed piece between two commas and holds no comma. */
  lemma TrimmedListShape(value: string)
    ensures forall k :: 0 <= k < |TrimmedList(value)| ==> TrimmedList(value)[k] == TrimSpace(SplitOn(value, ',')[k])
    ensures forall k :: 0 <= k < |TrimmedList(value)| ==>
      IsTrimmed(TrimmedList(value)[k]) && ',' !in TrimmedList(value)[k]
  {
    var parts := SplitOn(value, ',');
    forall k | 0 <= k < |parts|
      ensures ',' !in TrimSpace(parts[k])
    {
      assert forall c :: c in TrimSpace(parts[k]) ==> c in parts[k];
    }
  }

  /** Empty elements are kept: a piece between two commas that is blank
      stays in the list as "". */
  lemma TrimmedListKeepsBlank(value: string, k: nat)
    requires k < |SplitOn(value, ',')|
    requires forall i :: 0 <= i < |SplitOn(value, ',')[k]| ==> IsSpace(SplitOn(value, ',')[k][i])
    ensures k < |TrimmedList(value)| && TrimmedList(value)[k] == ""
  {
    TrimSpaceSpec(SplitOn(value, ',')[k]);
  }

  /** Writing a list of trimmed, comma-free elements joined by commas reads
      back as that list. */
  lemma TrimmedListOfJoin(items: seq<string>)
    requires items != []
    requires forall k :: 0 <= k < |items| ==> IsTrimmed(items[k]) && ',' !in items[k]
    ensures TrimmedList(Join(items, ",")) == items
  {
    JoinSplitOn(items, ',');
    forall k | 0 <= k < |items|
      ensures TrimSpace(items[k]) == items[k]
    {
      TrimSpaceOfTrimmed(items[k]);
    }
  }

  /** `open_in_ide_after_use` takes "true" or "false" in any letter case. */
  lemma ParseBoolAnyCase(value: string)
    ensures ParseBool(value) == Some(true) <==>
      |value| == 4 && forall i :: 0 <= i < 4 ==> value[i] == "true"[i] || value[i] == "TRUE"[i]
    ensures ParseBool(value) == Some(false) <==>
      |value| == 5 && forall i :: 0 <= i < 5 ==> value[i] == "false"[i] || value[i] == "FALSE"[i]
  {
    var lower := ToLowerAscii(value);
    if |value| == 4 && forall i :: 0 <= i < 4 ==> value[i] == "true"[i] || value[i] == "TRUE"[i] {
      assert lower == "true";
    }
    if |value| == 5 && forall i :: 0 <= i < 5 ==> value[i] == "false"[i] || value[i] == "FALSE"[i] {
      assert lower == "false";
    }
  }

  /** `set` fails only on an invalid boolean, and otherwise changes the field
      the key names and nothing else; both lists are non-nil afterwards. */
  lemma AssignSpec(f: Fields, key: string, value: string)
    ensures Assign(f, key, value).Err? <==> key == "open_in_ide_after_use" && ParseBool(value).None?
    ensures Assign(f, key, value).Ok? ==>
      var g := Assign(f, key, value).value;
      g.workspaceDir == (if key == "workspace_dir" then value else f.workspaceDir)
      && g.defaultIDE == (if key == "default_ide" then value else f.defaultIDE)
      && g.openInIDEAfterUse == (if key == "open_in_ide_after_use" then ParseBool(value).value else f.openInIDEAfterUse)
      && g.commonProjects.value == (if key == "common_projects" then TrimmedList(value) else ListOf(f.commonProjects))
      && g.prefix.value == (if key == "prefix" then TrimmedList(value) else ListOf(f.prefix))
  {
  }

  /** A key the validator rejects only normalises the lists. */
  lemma AssignUnknownKey(f: Fields, key: string, value: string)
    requires key !in ValidKeys
    ensures Assign(f, key, value) == Ok(Normalised(f))
    ensures f.commonProjects.Some? && f.prefix.Some? ==> Assign(f, key, value) == Ok(f)
  {
  }

  // ---------------------------------------------------------------------------
  // init (commands/config.go:157-174)
  // ---------------------------------------------------------------------------

  /** The prefix list in force: the configured one when it is non-empty.
      It is one of the two lists, and it is empty only when both are, so
      init never leaves an empty list in place of a non-empty one. */
  function EffectivePrefixes(configured: Option<seq<string>>, current: seq<string>): (r: seq<string>)
    ensures ListOf(configured) != [] ==> r == ListOf(configured)
    ensures r == ListOf(configured) || r == current
    ensures r == [] <==> ListOf(configured) == [] && current == []
  {
    if |ListOf(configured)| > 0 then configured.value else current
  }

  /** The package globals that init sets up. */
  class Globals {
    var config: Config
    var prefix: seq<string>
    var projectPattern: string

    constructor (loaded: Config)
      ensures config == loaded && prefix == DefaultPrefixes && projectPattern == ""
    {
      config := loaded;
      prefix := DefaultPrefixes;
      projectPattern := "";
    }

    /** Override the prefix list, compile the project pattern from it and
        default the IDE to "code". */
    method Init()
      modifies this, config
      ensures config == old(config)
      ensures prefix == EffectivePrefixes(old(config.prefix), old(prefix))
      ensures projectPattern == PatternSource(prefix)
      ensures config.Snapshot() == old(config.Snapshot()).(defaultIDE :=
        if old(config.defaultIDE) == "" then DefaultIde else old(config.defaultIDE))
    {
      if config.prefix.Some? && |config.prefix.value| > 0 {
        prefix := config.prefix.value;
      }
      projectPattern := PatternSource(prefix);
      if config.defaultIDE == "" {
        config.defaultIDE := DefaultIde;
      }
    }
  }

  /** The alternatives the hand-written matcher tries are exactly the
      `|`-separated pieces of the pattern's inner group, provided no prefix
      holds a `|`; an empty list leaves one empty alternative. */
  lemma PatternAlternatives(prefixes: seq<string>)
    requires forall k :: 0 <= k < |prefixes| ==> '|' !in prefixes[k]
    ensures Alternatives(prefixes) == SplitOn(Join(prefixes, "|"), '|')
    ensures PatternSource(prefixes) == "((" + Join(prefixes, "|") + ")-[^-]+)-(.+)$"
  {
    if prefixes != [] {
      JoinSplitOn(prefixes, '|');
    }
  }
}
