/** Executable lookup (src/os.rs): the index of the executables found on `PATH`, built
    once when the shell starts, and the search of a single directory. Directory
    listings and the `PATH` variable are inputs. */
module Os {
  import opened Wrappers
  import opened Strings
  import opened Paths

  /** One directory named by `PATH`, with what reading it gives. */
  type PathDir = (Path, Listing)

  /** `env::split_paths` of the `PATH` variable, or `None` when it is not set. */
  type PathVar = Option<seq<PathDir>>

  // ---------------------------------------------------------------------------
  // Matching a directory entry against a command name

  /** The component a stored name stands for. */
  function ComponentOf(n: string): Component {
    if n == ".." then ParentDir else Normal(n)
  }

  /** `Path::components` of an absolute path. */
  function PathComponents(p: Path): (r: seq<Component>)
    ensures |r| == |p| + 1 && r[0] == RootDir
    decreases |p|
  {
    if p == [] then [RootDir] else PathComponents(p[..|p| - 1]) + [ComponentOf(p[|p| - 1])]
  }

  /** Whether `suffix` matches the last components of `file`, compared from the end
      (`Path::ends_with`). */
  predicate EndsWith(file: seq<Component>, suffix: seq<Component>)
    decreases |suffix|
  {
    suffix == [] ||
    (file != [] && file[|file| - 1] == suffix[|suffix| - 1] &&
     EndsWith(file[..|file| - 1], suffix[..|suffix| - 1]))
  }

  /** `Path::ends_with(name)`: the components of `name` are the last components of
      `file`. */
  predicate EndsWithName(file: Path, name: string) {
    EndsWith(PathComponents(file), Components(name))
  }

  /** For a plain command name the match is simply equality with the entry's name. */
  lemma PlainNameMatch(dir: Path, entryName: string, name: string)
    requires name != [] && '/' !in name && name != "." && name != ".."
    ensures EndsWithName(Push(dir, entryName), name) <==> entryName == name
  {
    SplitNoSeparator(name, '/');
    assert NonEmpty([name]) == [name] by {
      assert NonEmpty([name]) == [name] + NonEmpty([]);
    }
    assert name[0] != '/' by { assert name[0] in name; }
    assert Classify([name], true) == [Normal(name)] + Classify([], false);
    assert Components(name) == [Normal(name)];
    var pc := PathComponents(Push(dir, entryName));
    assert Push(dir, entryName)[..|dir|] == dir;
    assert pc[|pc| - 1] == ComponentOf(entryName);
    assert EndsWith(pc[..|pc| - 1], []);
  }

  // ---------------------------------------------------------------------------
  // find_executable_folder

  /** Whether entry `e` of `dir` is executable and its path ends with `name`. */
  predicate FolderHit(name: string, dir: Path, e: Entry) {
    Hit(Components(name), dir, e)
  }

  predicate Hit(suffix: seq<Component>, dir: Path, e: Entry) {
    EndsWith(PathComponents(Push(dir, e.name)), suffix) && e.isExecutable
  }

  /** The position of the first entry that is a hit, if any. */
  function FirstHit(suffix: seq<Component>, dir: Path, entries: seq<Entry>): (r: Option<nat>)
    ensures r.Some? ==> r.value < |entries| && Hit(suffix, dir, entries[r.value])
    ensures r.Some? ==> forall j :: 0 <= j < r.value ==> !Hit(suffix, dir, entries[j])
    ensures r.None? ==> forall k :: 0 <= k < |entries| ==> !Hit(suffix, dir, entries[k])
  {
    if entries == [] then None
    else if Hit(suffix, dir, entries[0]) then Some(0)
    else match FirstHit(suffix, dir, entries[1..])
      case None => None
      case Some(k) => Some(k + 1)
  }

  /** The first entry of `dir`, in listing order, whose path ends with `name` and that
      is executable; `None` when there is none or the directory cannot be read. */
  function FolderMatch(name: string, dir: Path, listing: Listing): (r: Option<Path>)
    ensures r.Some? ==> listing.Some? && exists k :: (0 <= k < |listing.value| &&
      FolderHit(name, dir, listing.value[k]) && r.value == Push(dir, listing.value[k].name) &&
      forall j :: 0 <= j < k ==> !FolderHit(name, dir, listing.value[j]))
    ensures r.None? ==> (listing.None? ||
      forall k :: 0 <= k < |listing.value| ==> !FolderHit(name, dir, listing.value[k]))
  {
    if listing.None? then None
    else match FirstHit(Components(name), dir, listing.value)
      case None => None
      case Some(k) => Some(Push(dir, listing.value[k].name))
  }

  /** `find_executable_folder`: reads the directory and returns at the first hit. */
  method FindExecutableFolder(name: string, pathItem: Path, listing: Listing) returns (r: Option<Path>)
    ensures r == FolderMatch(name, pathItem, listing)
  {
    if listing.None? {
      return None;
    }
    var entries := listing.value;
    var i := 0;
    while i < |entries|
      invariant 0 <= i <= |entries|
      invariant forall j :: 0 <= j < i ==> !FolderHit(name, pathItem, entries[j])
    {
      var filePath := Push(pathItem, entries[i].name);
      if EndsWithName(filePath, name) && entries[i].isExecutable {
        FirstHitIs(name, pathItem, entries, i);
        return Some(filePath);
      }
      i := i + 1;
    }
    return None;
  }

  /** The first hit is the one before which there is none. */
  lemma FirstHitIs(name: string, dir: Path, entries: seq<Entry>, i: nat)
    requires i < |entries| && FolderHit(name, dir, entries[i])
    requires forall j :: 0 <= j < i ==> !FolderHit(name, dir, entries[j])
    ensures FirstHit(Components(name), dir, entries) == Some(i)
  {
    var r := FirstHit(Components(name), dir, entries);
    assert r.Some?;
    assert !(r.value < i) && !(i < r.value);
  }

  // ---------------------------------------------------------------------------
  // load_path_commands

  /** Whether `d` can be read and lists an executable entry named `n`. */
  predicate ExecutableIn(d: PathDir, n: string) {
    d.1.Some? && HasExecutable(d.1.value, n)
  }

  predicate HasExecutable(entries: seq<Entry>, n: string) {
    exists k :: 0 <= k < |entries| && entries[k].name == n && entries[k].isExecutable
  }

  /** The index after inserting the executables of `entries`, in order, into `m`. */
  function AddEntries(m: map<string, Path>, dir: Path, entries: seq<Entry>): map<string, Path>
    decreases |entries|
  {
    if entries == [] then m
    else
      var prev := AddEntries(m, dir, entries[..|entries| - 1]);
      var e := entries[|entries| - 1];
      if e.isExecutable then prev[e.name := Push(dir, e.name)] else prev
  }

  /** The index after inserting the executables of every directory of `dirs`, in
      order. */
  function IndexDirs(dirs: seq<PathDir>): map<string, Path>
    decreases |dirs|
  {
    if dirs == [] then map[]
    else
      var prev := IndexDirs(dirs[..|dirs| - 1]);
      var d := dirs[|dirs| - 1];
      if d.1.Some? then AddEntries(prev, d.0, d.1.value) else prev
  }

  /** The index `load_path_commands` builds: empty when `PATH` is unset. */
  function PathIndex(pathVar: PathVar): map<string, Path> {
    if pathVar.None? then map[] else IndexDirs(pathVar.value)
  }

  /** Inserting a directory's executables adds exactly their names, each mapped into
      that directory; other names keep what they had. */
  lemma {:induction false} AddEntriesEffect(m: map<string, Path>, dir: Path, entries: seq<Entry>)
    ensures forall n :: n in AddEntries(m, dir, entries) <==> n in m || HasExecutable(entries, n)
    ensures forall n :: n in AddEntries(m, dir, entries) ==>
      AddEntries(m, dir, entries)[n] == if HasExecutable(entries, n) then Push(dir, n) else m[n]
    decreases |entries|
  {
    if entries != [] {
      var init := entries[..|entries| - 1];
      var e := entries[|entries| - 1];
      AddEntriesEffect(m, dir, init);
      forall n ensures HasExecutable(entries, n) <==> HasExecutable(init, n) || (e.isExecutable && e.name == n) {
        if HasExecutable(entries, n) {
          var k :| 0 <= k < |entries| && entries[k].name == n && entries[k].isExecutable;
          if k < |init| { assert init[k] == entries[k]; }
        }
        if HasExecutable(init, n) {
          var k :| 0 <= k < |init| && init[k].name == n && init[k].isExecutable;
          assert entries[k] == init[k];
        }
      }
    }
  }

  /** A name is in the index exactly when some readable `PATH` directory lists an
      executable of that name. */
  lemma {:induction false} IndexKeys(dirs: seq<PathDir>, n: string)
    ensures n in IndexDirs(dirs) <==> exists i :: 0 <= i < |dirs| && ExecutableIn(dirs[i], n)
    decreases |dirs|
  {
    if dirs != [] {
      var init := dirs[..|dirs| - 1];
      var d := dirs[|dirs| - 1];
      IndexKeys(init, n);
      if d.1.Some? {
        AddEntriesEffect(IndexDirs(init), d.0, d.1.value);
      }
      if exists i :: 0 <= i < |dirs| && ExecutableIn(dirs[i], n) {
        var i :| 0 <= i < |dirs| && ExecutableIn(dirs[i], n);
        if i < |init| { assert init[i] == dirs[i]; }
      }
      if exists i :: 0 <= i < |init| && ExecutableIn(init[i], n) {
        var i :| 0 <= i < |init| && ExecutableIn(init[i], n);
        assert dirs[i] == init[i];
      }
    }
  }

  /** When a name is executable in several `PATH` directories, the index holds the
      path in the LAST of them: each later insert overwrites the earlier one. */
  lemma {:induction false} LastMatchWins(dirs: seq<PathDir>, i: nat, n: string)
    requires i < |dirs| && ExecutableIn(dirs[i], n)
    requires forall j :: i < j < |dirs| ==> !ExecutableIn(dirs[j], n)
    ensures n in IndexDirs(dirs) && IndexDirs(dirs)[n] == Push(dirs[i].0, n)
    decreases |dirs|
  {
    var init := dirs[..|dirs| - 1];
    var d := dirs[|dirs| - 1];
    if d.1.Some? {
      AddEntriesEffect(IndexDirs(init), d.0, d.1.value);
    }
    if i < |dirs| - 1 {
      forall j | i < j < |init| ensures !ExecutableIn(init[j], n) {
        assert init[j] == dirs[j];
      }
      assert init[i] == dirs[i];
      LastMatchWins(init, i, n);
    }
  }

  /** Every index entry is an executable named by its key, inside a `PATH`
      directory. */
  lemma {:induction false} IndexSound(dirs: seq<PathDir>, n: string)
    requires n in IndexDirs(dirs)
    ensures exists i :: 0 <= i < |dirs| && ExecutableIn(dirs[i], n) && IndexDirs(dirs)[n] == Push(dirs[i].0, n)
    decreases |dirs|
  {
    IndexKeys(dirs, n);
    var i :| 0 <= i < |dirs| && ExecutableIn(dirs[i], n);
    while exists j :: i < j < |dirs| && ExecutableIn(dirs[j], n)
      invariant 0 <= i < |dirs| && ExecutableIn(dirs[i], n)
      decreases |dirs| - i
    {
      var j :| i < j < |dirs| && ExecutableIn(dirs[j], n);
      i := j;
    }
    LastMatchWins(dirs, i, n);
  }

  /** `load_path_commands`: for each readable `PATH` directory in order, insert every
      executable entry under its file name. */
  method LoadPathCommands(pathVar: PathVar) returns (commands: map<string, Path>)
    ensures commands == PathIndex(pathVar)
  {
    commands := map[];
    if pathVar.None? {
      return;
    }
    var dirs := pathVar.value;
    var i := 0;
    while i < |dirs|
      invariant 0 <= i <= |dirs|
      invariant commands == IndexDirs(dirs[..i])
    {
      assert dirs[..i + 1][..i] == dirs[..i];
      var pathItem: Path, readDirValue: Listing := dirs[i].0, dirs[i].1;
      if readDirValue.Some? {
        var entries := readDirValue.value;
        var j := 0;
        while j < |entries|
          invariant 0 <= j <= |entries|
          invariant commands == AddEntries(IndexDirs(dirs[..i]), pathItem, entries[..j])
        {
          assert entries[..j + 1][..j] == entries[..j];
          var entry := entries[j];
          if entry.isExecutable {
            commands := commands[entry.name := Push(pathItem, entry.name)];
          }
          j := j + 1;
        }
        assert entries[..j] == entries;
      }
      i := i + 1;
    }
    assert dirs[..i] == dirs;
  }

  // ---------------------------------------------------------------------------
  // OSInstance

  /** `OSInstance`: the `PATH` index, fixed once built. */
  datatype OsInstance = OsInstance(pathCommands: map<string, Path>)

  /** `OSInstance::new`. */
  method NewInstance(pathVar: PathVar) returns (os: OsInstance)
    ensures os.pathCommands == PathIndex(pathVar)
  {
    var commands := LoadPathCommands(pathVar);
    os := OsInstance(commands);
  }

  /** `OSInstance::find_executable`: a match in the current directory first, then the
      index entry for the name. */
  function FindExecutable(os: OsInstance, name: string, currentDir: Path, currentListing: Listing): (r: Option<Path>)
    ensures FolderMatch(name, currentDir, currentListing).Some? ==> r == FolderMatch(name, currentDir, currentListing)
    ensures FolderMatch(name, currentDir, currentListing).None? ==>
      (r.Some? <==> name in os.pathCommands) && (r.Some? ==> r.value == os.pathCommands[name])
  {
    var local := FolderMatch(name, currentDir, currentListing);
    if local.Some? then local
    else if name in os.pathCommands then Some(os.pathCommands[name])
    else None
  }

  /** Through a freshly built instance, a plain name missing from the current
      directory resolves to the last `PATH` directory holding an executable of that
      name, and to nothing when none does. */
  lemma FindExecutableOnPath(dirs: seq<PathDir>, name: string, currentDir: Path, currentListing: Listing)
    requires FolderMatch(name, currentDir, currentListing).None?
    ensures var r := FindExecutable(OsInstance(PathIndex(Some(dirs))), name, currentDir, currentListing);
      (r.None? <==> forall i :: 0 <= i < |dirs| ==> !ExecutableIn(dirs[i], name)) &&
      (r.Some? ==> exists i :: 0 <= i < |dirs| && ExecutableIn(dirs[i], name) && r.value == Push(dirs[i].0, name) &&
                    forall j :: i < j < |dirs| ==> !ExecutableIn(dirs[j], name))
  {
    IndexKeys(dirs, name);
    if name in IndexDirs(dirs) {
      var i :| 0 <= i < |dirs| && ExecutableIn(dirs[i], name);
      while exists j :: i < j < |dirs| && ExecutableIn(dirs[j], name)
        invariant 0 <= i < |dirs| && ExecutableIn(dirs[i], name)
        decreases |dirs| - i
      {
        var j :| i < j < |dirs| && ExecutableIn(dirs[j], name);
        i := j;
      }
      LastMatchWins(dirs, i, name);
    }
  }

  /** `OSInstance::get_know_commands`: every index key once, in some order (the
      order of a `HashMap` is unspecified). */
  method KnownCommands(os: OsInstance) returns (names: seq<string>)
    ensures forall n :: n in names <==> n in os.pathCommands
    ensures |names| == |os.pathCommands.Keys|
    ensures forall a, b :: 0 <= a < b < |names| ==> names[a] != names[b]
  {
    names := [];
    var remaining := os.pathCommands.Keys;
    while remaining != {}
      invariant remaining <= os.pathCommands.Keys
      invariant forall n :: n in names <==> n in os.pathCommands.Keys - remaining
      invariant |names| + |remaining| == |os.pathCommands.Keys|
      invariant forall a, b :: 0 <= a < b < |names| ==> names[a] != names[b]
      decreases |remaining|
    {
      var n :| n in remaining;
      assert n !in names;
      assert |remaining - {n}| == |remaining| - 1;
      names := names + [n];
      remaining := remaining - {n};
    }
  }
}
