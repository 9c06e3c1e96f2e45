/** The single-file command set of src/commands.rs. Its `echo`, `type` and `ls` are the
    ones of src/commands/ (module Builtins); what differs is how it finds executables
    (scanning `PATH` on every call, first match winning), its `cd` (which resolves the
    path itself, expanding a leading `~`) and its `run_program` (which trims the
    child's standard output and drops standard error). */
module Legacy {
  import opened Wrappers
  import opened Strings
  import opened Paths
  import opened Shell
  import opened Os
  import Builtins

  // ---------------------------------------------------------------------------
  // find_executable

  /** The first `PATH` directory, in order, in which `find_executable_folder` finds
      `name` (`Iterator::find_map`). */
  function ScanPath(name: string, dirs: seq<PathDir>): (r: Option<Path>)
    ensures r.None? ==> forall i :: 0 <= i < |dirs| ==> FolderMatch(name, dirs[i].0, dirs[i].1).None?
    ensures r.Some? ==> exists i :: (0 <= i < |dirs| && r == FolderMatch(name, dirs[i].0, dirs[i].1) &&
      forall j :: 0 <= j < i ==> FolderMatch(name, dirs[j].0, dirs[j].1).None?)
  {
    if dirs == [] then None
    else
      var here := FolderMatch(name, dirs[0].0, dirs[0].1);
      if here.Some? then here
      else
        var rest := ScanPath(name, dirs[1..]);
        assert forall i :: 1 <= i < |dirs| ==> dirs[i] == dirs[1..][i - 1];
        rest
  }

  /** `find_executable` of src/commands.rs: the current directory first, then a
      fresh scan of `PATH`; nothing when `PATH` is unset. */
  function FindExecutable(name: string, currentDir: Path, currentListing: Listing, pathVar: PathVar): (r: Option<Path>)
    ensures FolderMatch(name, currentDir, currentListing).Some? ==> r == FolderMatch(name, currentDir, currentListing)
    ensures FolderMatch(name, currentDir, currentListing).None? && pathVar.None? ==> r.None?
    ensures FolderMatch(name, currentDir, currentListing).None? && pathVar.Some? ==> r == ScanPath(name, pathVar.value)
  {
    var local := FolderMatch(name, currentDir, currentListing);
    if local.Some? then local
    else if pathVar.None? then None
    else ScanPath(name, pathVar.value)
  }

  /** A plain name names the same executable whether matched by path ending or by
      the index's file-name key. */
  lemma PlainFolderMatch(name: string, dir: Path, listing: Listing)
    requires name != [] && '/' !in name && name != "." && name != ".."
    ensures FolderMatch(name, dir, listing).Some? <==> ExecutableIn((dir, listing), name)
    ensures FolderMatch(name, dir, listing).Some? ==> FolderMatch(name, dir, listing).value == Push(dir, name)
  {
    forall e: Entry ensures FolderHit(name, dir, e) <==> e.name == name && e.isExecutable {
      PlainNameMatch(dir, e.name, name);
    }
    if listing.Some? && HasExecutable(listing.value, name) {
      var k :| 0 <= k < |listing.value| && listing.value[k].name == name && listing.value[k].isExecutable;
      assert FolderHit(name, dir, listing.value[k]);
    }
  }

  /** The scan returns the FIRST `PATH` directory holding an executable of a plain
      name, whereas the index of src/os.rs keeps the LAST. */
  lemma {:induction false} ScanFindsFirst(name: string, dirs: seq<PathDir>, i: nat)
    requires name != [] && '/' !in name && name != "." && name != ".."
    requires i < |dirs| && ExecutableIn(dirs[i], name)
    requires forall j :: 0 <= j < i ==> !ExecutableIn(dirs[j], name)
    ensures ScanPath(name, dirs) == Some(Push(dirs[i].0, name))
    decreases i
  {
    PlainFolderMatch(name, dirs[0].0, dirs[0].1);
    if i > 0 {
      forall j | 0 <= j < i - 1 ensures !ExecutableIn(dirs[1..][j], name) {
        assert dirs[1..][j] == dirs[j + 1];
      }
      ScanFindsFirst(name, dirs[1..], i - 1);
    }
  }

  /** The two resolvers part ways when two `PATH` directories `a` and `b` hold the
      same executable: the scan gives the one in `a`, the index the one in `b`. */
  lemma ResolversDisagreeOnShadowedNames(name: string, a: Path, b: Path, e: Entry)
    requires name != [] && '/' !in name && name != "." && name != ".."
    requires e.name == name && e.isExecutable && a != b
    ensures var dirs := [(a, Some([e])), (b, Some([e]))];
      ScanPath(name, dirs) == Some(Push(a, name)) &&
      name in PathIndex(Some(dirs)) && PathIndex(Some(dirs))[name] == Push(b, name) &&
      Push(a, name) != Push(b, name)
  {
    var dirs: seq<PathDir> := [(a, Some([e])), (b, Some([e]))];
    assert ExecutableIn(dirs[0], name) by { assert dirs[0].1.value[0] == e; }
    assert ExecutableIn(dirs[1], name) by { assert dirs[1].1.value[0] == e; }
    ScanFindsFirst(name, dirs, 0);
    LastMatchWins(dirs, 1, name);
    assert Push(a, name)[..|a|] == a;
  }

  /** With a single `PATH` directory holding a plain name, both resolvers agree. */
  lemma ResolversAgreeOnUniqueNames(name: string, dirs: seq<PathDir>, i: nat, currentDir: Path, currentListing: Listing)
    requires name != [] && '/' !in name && name != "." && name != ".."
    requires i < |dirs| && ExecutableIn(dirs[i], name)
    requires forall j :: 0 <= j < |dirs| && j != i ==> !ExecutableIn(dirs[j], name)
    ensures FindExecutable(name, currentDir, currentListing, Some(dirs)) ==
      Os.FindExecutable(OsInstance(PathIndex(Some(dirs))), name, currentDir, currentListing)
  {
    ScanFindsFirst(name, dirs, i);
    LastMatchWins(dirs, i, name);
  }

  /** `type_fn` of src/commands.rs: the one of src/commands/type_fn.rs over this
      file's resolver. */
  function TypeFn(args: seq<string>, currentDir: Path, currentListing: Listing, pathVar: PathVar): (r: CommandOutput)
    ensures (args != [] && !Builtins.IsBuiltinName(args[0]) &&
             FindExecutable(args[0], currentDir, currentListing, pathVar).None?) ==> r == Failure(args[0] + ": not found")
  {
    Builtins.TypeFn(args, name => FindExecutable(name, currentDir, currentListing, pathVar))
  }

  // ---------------------------------------------------------------------------
  // cd

  const NoHome := "HOME directory is not available"

  /** The argument with a leading `~` replaced by the home directory (`replacen` of
      the first `~`, which is the leading one); `None` when it is needed but `HOME`
      is unset. */
  function ExpandTilde(path: string, home: Option<string>): (r: Option<string>)
    ensures (path == [] || path[0] != '~') ==> r == Some(path)
    ensures path != [] && path[0] == '~' ==>
      (r.None? <==> home.None?) && (r.Some? ==> r.value == home.value + path[1..])
  {
    if path != [] && path[0] == '~' then
      if home.None? then None else Some(home.value + path[1..])
    else Some(path)
  }

  /** The directory the component loop ends in, starting from `target`: `..` pops,
      `.` is skipped, a name is pushed, and a root component replaces everything with
      the whole path `whole` and stops. */
  function Walk(target: Path, comps: seq<Component>, whole: Path): (r: Path)
    ensures RootDir in comps ==> r == whole
    ensures RootDir !in comps ==> |r| <= |target| + |comps|
    ensures RootDir !in comps && ParentDir !in comps ==> |target| <= |r| && r[..|target|] == target
    decreases |comps|
  {
    if comps == [] then target
    else match comps[0]
      case RootDir => whole
      case ParentDir => Walk(Pop(target), comps[1..], whole)
      case Normal(value) => Walk(Push(target, value), comps[1..], whole)
      case CurDir => Walk(target, comps[1..], whole)
  }

  /** The target `cd` computes for an already expanded argument. */
  function Target(path: string, currentDir: Path): (r: Path)
    ensures path != [] && path[0] == '/' ==> r == Names(Components(path))
    ensures (path == [] || path[0] != '/') ==> |r| <= |currentDir| + |Components(path)|
  {
    Walk(currentDir, Components(path), Names(Components(path)))
  }

  /** The outcome of `cd` in src/commands.rs, given the home directory and the
      filesystem's `Path::exists`. */
  function CdResult(args: seq<string>, currentDir: Path, home: Option<string>, pathExists: Path -> bool): (r: CommandOutput)
    ensures args == [] ==> r == Empty()
    ensures r.stdOutput.None?
    ensures r.updatedDir.Some? ==> args != [] && pathExists(r.updatedDir.value)
    ensures args != [] && args[0] != [] && args[0][0] == '~' && home.None? ==> r == Failure(NoHome)
    ensures args != [] && ExpandTilde(args[0], home).Some? ==>
      var target := Target(ExpandTilde(args[0], home).value, currentDir);
      (pathExists(target) <==> r == PathUpdate(target))
    ensures (args != [] && ExpandTilde(args[0], home).Some? &&
             !pathExists(Target(ExpandTilde(args[0], home).value, currentDir))) ==>
      r == Failure("cd: " + ExpandTilde(args[0], home).value + ": No such file or directory")
    ensures args != [] && r.stdError.Some? && r.stdError.value != NoHome ==>
      exists path :: ExpandTilde(args[0], home) == Some(path) &&
        !pathExists(Target(path, currentDir)) && r.stdError.value == "cd: " + path + ": No such file or directory"
  {
    if args == [] then Empty()
    else match ExpandTilde(args[0], home)
      case None => Failure(NoHome)
      case Some(path) =>
        var target := Target(path, currentDir);
        if pathExists(target) then PathUpdate(target)
        else Failure("cd: " + path + ": No such file or directory")
  }

  /** `cd` of src/commands.rs, with its loop over the components. */
  method Cd(args: seq<string>, currentDir: Path, home: Option<string>, pathExists: Path -> bool)
    returns (r: CommandOutput)
    ensures r == CdResult(args, currentDir, home, pathExists)
  {
    if args == [] {
      return Empty();
    }
    var path := args[0];
    if path != [] && path[0] == '~' {
      if home.None? {
        return Failure(NoHome);
      }
      path := home.value + path[1..];
    }
    var targetDir := currentDir;
    var components := Components(path);
    var i := 0;
    while i < |components|
      invariant 0 <= i <= |components|
      invariant Walk(targetDir, components[i..], Names(components)) == Target(path, currentDir)
    {
      assert components[i..][1..] == components[i + 1..];
      match components[i] {
        case RootDir =>
          targetDir := Names(components);
          break;
        case ParentDir =>
          targetDir := Pop(targetDir);
        case Normal(value) =>
          targetDir := Push(targetDir, value);
        case CurDir =>
      }
      i := i + 1;
    }
    if pathExists(targetDir) {
      r := PathUpdate(targetDir);
    } else {
      r := Failure("cd: " + path + ": No such file or directory");
    }
  }

  /** Walking through a concatenation of root-free components is walking through
      each part in turn. */
  lemma {:induction false} WalkAppend(target: Path, a: seq<Component>, b: seq<Component>, whole: Path)
    requires forall k :: 0 <= k < |a| ==> a[k] != RootDir
    ensures Walk(target, a + b, whole) == Walk(Walk(target, a, whole), b, whole)
    decreases |a|
  {
    if a != [] {
      assert (a + b)[0] == a[0];
      assert (a + b)[1..] == a[1..] + b;
      match a[0]
      case ParentDir => WalkAppend(Pop(target), a[1..], b, whole);
      case Normal(v) => WalkAppend(Push(target, v), a[1..], b, whole);
      case CurDir => WalkAppend(target, a[1..], b, whole);
    } else {
      assert a + b == b;
    }
  }

  /** A relative path of plain names descends from the working directory, one name
      per component. */
  lemma {:induction false} WalkNames(target: Path, names: seq<string>, whole: Path)
    ensures Walk(target, seq(|names|, k requires 0 <= k < |names| => Normal(names[k])), whole) == target + names
    decreases |names|
  {
    var comps := seq(|names|, k requires 0 <= k < |names| => Normal(names[k]));
    if names != [] {
      assert comps[1..] == seq(|names[1..]|, k requires 0 <= k < |names[1..]| => Normal(names[1..][k]));
      WalkNames(target + [names[0]], names[1..], whole);
      assert target + [names[0]] + names[1..] == target + names;
    }
  }

  /** `..` goes up one level, never above the root; `.` stays. */
  lemma ParentAndCurrent(target: Path, whole: Path)
    ensures target != [] ==> Walk(target, [ParentDir], whole) + [target[|target| - 1]] == target
    ensures Walk([], [ParentDir], whole) == []
    ensures Walk(target, [CurDir], whole) == target
  {
  }

  /** An absolute argument does not depend on the working directory. */
  lemma AbsoluteIgnoresCurrentDir(path: string, a: Path, b: Path)
    requires path != [] && path[0] == '/'
    ensures Target(path, a) == Target(path, b) == Names(Components(path))
  {
  }

  /** `cd ~` with `HOME` unset reports the missing variable and changes nothing. */
  lemma TildeWithoutHome(rest: string, currentDir: Path, pathExists: Path -> bool)
    ensures CdResult(["~" + rest], currentDir, None, pathExists) == Failure(NoHome)
  {
    assert ("~" + rest)[0] == '~';
  }

  /** The two `cd`s agree when the path resolution of src/commands/cd.rs is this
      file's walk over the expanded argument: they move to the same directory, and
      differ at most in the text of the not-found message, which here names the
      expanded path and there the argument as typed. */
  lemma CdVersionsAgree(args: seq<string>, currentDir: Path, home: string, pathExists: Path -> bool)
    ensures var parse := (p: string, dir: Path) => Ok(Target(ExpandTilde(p, Some(home)).value, dir));
      var legacy := CdResult(args, currentDir, Some(home), pathExists);
      var current := Builtins.Cd(args, currentDir, parse, pathExists);
      legacy.updatedDir == current.updatedDir &&
      legacy.stdOutput == current.stdOutput &&
      (legacy.stdError.Some? <==> current.stdError.Some?) &&
      (args != [] && (args[0] == [] || args[0][0] != '~') ==> legacy == current)
  {
  }

  // ---------------------------------------------------------------------------
  // run_program

  /** `run_program` of src/commands.rs: an unresolved name fails; otherwise the
      child's standard output, if it is UTF-8 (`decodedStdout`), is trimmed of
      whitespace at both ends; undecodable output gives nothing at all. */
  function RunProgram(commandName: string, currentDir: Path, currentListing: Listing, pathVar: PathVar,
                      decodedStdout: Option<string>): (r: CommandOutput)
    ensures r.updatedDir.None?
    ensures FindExecutable(commandName, currentDir, currentListing, pathVar).None? ==>
      r == Failure(commandName + ": not found")
    ensures FindExecutable(commandName, currentDir, currentListing, pathVar).Some? && decodedStdout.None? ==>
      r == Empty()
    ensures FindExecutable(commandName, currentDir, currentListing, pathVar).Some? && decodedStdout.Some? ==>
      r == Success(Trim(decodedStdout.value)) && |r.stdOutput.value| <= |decodedStdout.value| &&
      (r.stdOutput.value == [] || (!IsWhitespace(r.stdOutput.value[0]) &&
                                    !IsWhitespace(r.stdOutput.value[|r.stdOutput.value| - 1])))
  {
    if FindExecutable(commandName, currentDir, currentListing, pathVar).None? then
      Failure(commandName + ": not found")
    else match decodedStdout
      case None => Empty()
      case Some(message) => Success(Trim(message))
  }
}
