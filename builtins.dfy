/** The builtin commands of src/commands/: `echo`, `type`, `cd`, `history`, `ls`, and
    the part of running an external program that is not process plumbing. */
module Builtins {
  import opened Wrappers
  import opened Strings
  import opened Paths
  import opened Shell
  import opened Os

  // ---------------------------------------------------------------------------
  // echo (src/commands/echo.rs)

  /** `echo`: the arguments separated by single spaces. */
  function Echo(args: seq<string>): (r: CommandOutput)
    ensures r.updatedDir.None? && r.stdError.None? && r.stdOutput.Some?
    ensures args == [] ==> r.stdOutput.value == ""
    ensures |args| >= 1 ==> |r.stdOutput.value| == Sum(args) + |args| - 1
  {
    if |args| >= 1 then JoinLength(args, " "); Success(Join(args, " ")) else Success(Join(args, " "))
  }

  /** When no argument holds a space, splitting what `echo` prints at spaces gives the
      arguments back. */
  lemma EchoSplitsBack(args: seq<string>)
    requires |args| >= 1
    requires forall k :: 0 <= k < |args| ==> ' ' !in args[k]
    ensures Split(Echo(args).stdOutput.value, ' ') == args
  {
    SplitJoin(args, ' ');
  }

  // ---------------------------------------------------------------------------
  // type (src/commands/type_fn.rs)

  /** The names `type` reports as builtins. */
  predicate IsBuiltinName(name: string) {
    name in {"echo", "exit", "type", "pwd", "cd", "dir"}
  }

  /** How `type` looks a name up when it is not a builtin: a resolver over the
      working directory and `PATH`. */
  type Resolver = string -> Option<Path>

  /** `type_fn`: classifies its first argument. */
  function TypeFn(args: seq<string>, resolve: Resolver): (r: CommandOutput)
    ensures r.updatedDir.None?
    ensures r.stdOutput.Some? != r.stdError.Some?
    ensures args == [] ==> r == Failure(": not found")
    ensures args != [] && IsBuiltinName(args[0]) ==> r == Success(args[0] + " is a shell builtin")
    ensures args != [] && !IsBuiltinName(args[0]) && resolve(args[0]).Some? ==>
      r == Success(args[0] + " is " + Display(resolve(args[0]).value))
    ensures args != [] && !IsBuiltinName(args[0]) && resolve(args[0]).None? ==>
      r == Failure(args[0] + ": not found")
  {
    if args == [] then Failure(": not found")
    else
      var name := args[0];
      if IsBuiltinName(name) then Success(name + " is a shell builtin")
      else match resolve(name)
        case Some(path) => Success(name + " is " + Display(path))
        case None => Failure(name + ": not found")
  }

  /** Only the first argument matters, and a builtin's answer does not depend on what
      the resolver would find. */
  lemma TypeLooksAtFirstOnly(args: seq<string>, resolve: Resolver, other: Resolver)
    requires args != []
    ensures TypeFn(args, resolve) == TypeFn([args[0]], resolve)
    ensures IsBuiltinName(args[0]) ==> TypeFn(args, resolve) == TypeFn(args, other)
  {
  }

  // ---------------------------------------------------------------------------
  // cd (src/commands/cd.rs)

  /** `cd`: resolves its first argument with `parse_path` and moves there when the
      target exists; `pathExists` is the filesystem's `Path::exists`. */
  function Cd(args: seq<string>, currentDir: Path, parsePath: PathParser, pathExists: Path -> bool): (r: CommandOutput)
    ensures args == [] ==> r == Empty()
    ensures args != [] && parsePath(args[0], currentDir).Err? ==> r == Failure(parsePath(args[0], currentDir).error)
    ensures args != [] && parsePath(args[0], currentDir).Ok? && !pathExists(parsePath(args[0], currentDir).value) ==>
      r == Failure("cd: " + args[0] + ": No such file or directory")
  {
    if args == [] then Empty()
    else
      var path := args[0];
      match parsePath(path, currentDir)
      case Ok(targetDir) =>
        if pathExists(targetDir) then PathUpdate(targetDir)
        else Failure("cd: " + path + ": No such file or directory")
      case Err(message) => Failure(message)
  }

  /** `cd` changes the directory exactly when it is given an argument that resolves
      to an existing directory, and then to that one and reports nothing. */
  lemma CdMovesOnlyToExistingTargets(args: seq<string>, currentDir: Path, parsePath: PathParser, pathExists: Path -> bool)
    ensures var r := Cd(args, currentDir, parsePath, pathExists);
      r.updatedDir.Some? <==>
        (args != [] && parsePath(args[0], currentDir).Ok? && pathExists(parsePath(args[0], currentDir).value))
    ensures var r := Cd(args, currentDir, parsePath, pathExists);
      r.updatedDir.Some? ==> r == PathUpdate(parsePath(args[0], currentDir).value) && pathExists(r.updatedDir.value)
  {
  }

  // ---------------------------------------------------------------------------
  // history (src/commands/history.rs)

  /** One line of the listing: the 1-based position, a space, the command. */
  function HistoryLine(position: nat, command: string): string {
    NatToString(position) + " " + command + "\n"
  }

  /** The lines for `commands`, numbered from `start`. */
  function Numbered(commands: seq<string>, start: nat): string
    decreases |commands|
  {
    if commands == [] then [] else HistoryLine(start, commands[0]) + Numbered(commands[1..], start + 1)
  }

  lemma {:induction false} NumberedSnoc(commands: seq<string>, c: string, start: nat)
    ensures Numbered(commands + [c], start) == Numbered(commands, start) + HistoryLine(start + |commands|, c)
    decreases |commands|
  {
    if commands == [] {
      assert Numbered([c], start) == HistoryLine(start, c) + Numbered([], start + 1);
    } else {
      assert (commands + [c])[1..] == commands[1..] + [c];
      NumberedSnoc(commands[1..], c, start + 1);
    }
  }

  /** `history`: every command entered so far, one numbered line each, oldest
      first. */
  method History(commandHistory: seq<string>) returns (r: CommandOutput)
    ensures r == Success(Numbered(commandHistory, 1))
  {
    var output := "";
    var position := 0;
    while position < |commandHistory|
      invariant 0 <= position <= |commandHistory|
      invariant output == Numbered(commandHistory[..position], 1)
    {
      NumberedSnoc(commandHistory[..position], commandHistory[position], 1);
      assert commandHistory[..position + 1] == commandHistory[..position] + [commandHistory[position]];
      output := output + HistoryLine(position + 1, commandHistory[position]);
      position := position + 1;
    }
    assert commandHistory[..position] == commandHistory;
    r := Success(output);
  }

  /** The listing read back line by line: line `i` is the number `start + i` and the
      `i`-th command, and the text ends with a newline (the last piece is empty). */
  lemma {:induction false} HistoryLines(commands: seq<string>, start: nat)
    requires forall k :: 0 <= k < |commands| ==> '\n' !in commands[k]
    ensures Split(Numbered(commands, start), '\n') ==
      seq(|commands|, i requires 0 <= i < |commands| => NatToString(start + i) + " " + commands[i]) + [[]]
    decreases |commands|
  {
    if commands != [] {
      var first := NatToString(start) + " " + commands[0];
      assert '\n' !in first by {
        var d := NatToString(start);
        forall k | 0 <= k < |first| ensures first[k] != '\n' {
          if k < |d| { assert '0' <= d[k] <= '9'; }
          else if k > |d| { assert first[k] == commands[0][k - |d| - 1]; }
        }
      }
      HistoryLines(commands[1..], start + 1);
      assert Numbered(commands, start) == first + ['\n'] + Numbered(commands[1..], start + 1);
      SplitAtSeparator(first, Numbered(commands[1..], start + 1), '\n');
    }
  }

  /** `line` reads back as `n` and `command`: the text before its first space is a
      decimal numeral of value `n`, and the text after that space is `command`. */
  predicate ReadsBackAs(line: string, n: nat, command: string) {
    var space := Find(line, ' ');
    space.Some? && IsDigits(line[..space.value]) &&
    DecimalValue(line[..space.value]) == n && line[space.value + 1..] == command
  }

  /** One listed line reads back as the number printed and the command. */
  lemma LineReadsBack(n: nat, command: string)
    ensures ReadsBackAs(NatToString(n) + " " + command, n, command)
  {
    var d := NatToString(n);
    var line := d + " " + command;
    assert ' ' !in d by {
      forall k | 0 <= k < |d| ensures d[k] != ' ' { assert '0' <= d[k] <= '9'; }
    }
    assert line[..|d|] == d;
    assert line[|d|] == ' ';
    assert Find(line, ' ') == Some(|d|);
    assert line[|d| + 1..] == command;
    DecimalRoundTrip(n);
  }

  /** The whole listing reads back: it has one line per command plus the empty
      piece after the last newline, and line `i` carries the number `i + 1` and
      the `i`-th command. */
  lemma HistoryNumbersReadBack(commands: seq<string>)
    requires forall k :: 0 <= k < |commands| ==> '\n' !in commands[k]
    ensures var lines := Split(Numbered(commands, 1), '\n');
      |lines| == |commands| + 1 &&
      forall i :: 0 <= i < |commands| ==> ReadsBackAs(lines[i], i + 1, commands[i])
  {
    var lines := Split(Numbered(commands, 1), '\n');
    HistoryLines(commands, 1);
    forall i | 0 <= i < |commands| ensures ReadsBackAs(lines[i], i + 1, commands[i]) {
      assert lines[i] == NatToString(1 + i) + " " + commands[i];
      LineReadsBack(1 + i, commands[i]);
    }
  }

  /** An empty history lists nothing. */
  lemma EmptyHistory()
    ensures Numbered([], 1) == ""
  {
  }

  // ---------------------------------------------------------------------------
  // ls (src/commands/ls.rs)

  /** The colour codes `ls` wraps around folder and executable names. */
  datatype Colours = Colours(folderStart: string, folderEnd: string, executableStart: string, executableEnd: string)

  /** The line shown for one entry. */
  function Decorate(e: Entry, colours: Colours): (r: string)
    ensures Group(e) == 0 ==> r == colours.folderStart + "[" + e.name + "]" + colours.folderEnd
    ensures Group(e) == 1 ==> r == colours.executableStart + "*" + e.name + colours.executableEnd
    ensures Group(e) == 2 ==> r == e.name
  {
    if e.isDir then colours.folderStart + "[" + e.name + "]" + colours.folderEnd
    else if e.isExecutable then colours.executableStart + "*" + e.name + colours.executableEnd
    else e.name
  }

  /** The entry's group: 0 for folders, 1 for executables, 2 for the rest. */
  function Group(e: Entry): nat {
    if e.isDir then 0 else if e.isExecutable then 1 else 2
  }

  /** The decorated lines of the entries in group `g`, in listing order. */
  function GroupLines(entries: seq<Entry>, g: nat, colours: Colours): (r: seq<string>)
    ensures |r| <= |entries|
    decreases |entries|
  {
    if entries == [] then []
    else
      var prev := GroupLines(entries[..|entries| - 1], g, colours);
      var e := entries[|entries| - 1];
      if Group(e) == g then prev + [Decorate(e, colours)] else prev
  }

  /** The lines `ls` prints: folders, then executables, then the rest, each group
      sorted. */
  function LsLines(entries: seq<Entry>, colours: Colours): (r: seq<string>)
    ensures |r| == |entries|
  {
    GroupsPartition(entries, colours);
    var f, x, o := Sort(GroupLines(entries, 0, colours)), Sort(GroupLines(entries, 1, colours)),
                   Sort(GroupLines(entries, 2, colours));
    assert |multiset(f + x + o)| == |multiset(AllLines(entries, colours))|;
    Sort(GroupLines(entries, 0, colours)) + Sort(GroupLines(entries, 1, colours)) + Sort(GroupLines(entries, 2, colours))
  }

  /** `ls`: nothing when the directory cannot be read, otherwise the lines joined by
      newlines. */
  method Ls(listing: Listing, colours: Colours) returns (r: CommandOutput)
    ensures listing.None? ==> r == Empty()
    ensures listing.Some? ==> r == Success(Join(LsLines(listing.value, colours), "\n"))
  {
    if listing.None? {
      return Empty();
    }
    var entries := listing.value;
    var folders: seq<string> := [];
    var executables: seq<string> := [];
    var others: seq<string> := [];
    var i := 0;
    while i < |entries|
      invariant 0 <= i <= |entries|
      invariant folders == GroupLines(entries[..i], 0, colours)
      invariant executables == GroupLines(entries[..i], 1, colours)
      invariant others == GroupLines(entries[..i], 2, colours)
    {
      assert entries[..i + 1][..i] == entries[..i];
      var e := entries[i];
      if e.isDir {
        folders := folders + [colours.folderStart + "[" + e.name + "]" + colours.folderEnd];
      } else if e.isExecutable {
        executables := executables + [colours.executableStart + "*" + e.name + colours.executableEnd];
      } else {
        others := others + [e.name];
      }
      i := i + 1;
    }
    assert entries[..i] == entries;
    folders := Sort(folders);
    executables := Sort(executables);
    others := Sort(others);
    folders := folders + executables;
    folders := folders + others;
    r := Success(Join(folders, "\n"));
  }

  /** The decorated lines of all entries, in listing order. */
  function AllLines(entries: seq<Entry>, colours: Colours): (r: seq<string>)
    ensures |r| == |entries|
  {
    seq(|entries|, k requires 0 <= k < |entries| => Decorate(entries[k], colours))
  }

  /** The three groups together hold every entry's line once. */
  lemma {:induction false} GroupsPartition(entries: seq<Entry>, colours: Colours)
    ensures multiset(GroupLines(entries, 0, colours)) + multiset(GroupLines(entries, 1, colours)) +
      multiset(GroupLines(entries, 2, colours)) == multiset(AllLines(entries, colours))
    decreases |entries|
  {
    if entries != [] {
      var init := entries[..|entries| - 1];
      GroupsPartition(init, colours);
      assert AllLines(entries, colours) == AllLines(init, colours) + [Decorate(entries[|entries| - 1], colours)];
    }
  }

  /** Each readable entry appears exactly once in the listing. */
  lemma LsListsEveryEntryOnce(entries: seq<Entry>, colours: Colours)
    ensures multiset(LsLines(entries, colours)) == multiset(AllLines(entries, colours))
  {
    GroupsPartition(entries, colours);
  }

  /** Whether line `s` is the decorated line of some entry of group `g`. */
  predicate FromGroup(s: string, entries: seq<Entry>, g: nat, colours: Colours) {
    exists k :: 0 <= k < |entries| && Group(entries[k]) == g && s == Decorate(entries[k], colours)
  }

  /** The lines of group `g` all come from entries of that group. */
  lemma {:induction false} GroupLinesFromGroup(entries: seq<Entry>, g: nat, colours: Colours)
    ensures forall s :: s in GroupLines(entries, g, colours) ==> FromGroup(s, entries, g, colours)
    decreases |entries|
  {
    if entries != [] {
      var init := entries[..|entries| - 1];
      GroupLinesFromGroup(init, g, colours);
      forall s | s in GroupLines(entries, g, colours)
        ensures FromGroup(s, entries, g, colours)
      {
        if s in GroupLines(init, g, colours) {
          var k :| 0 <= k < |init| && Group(init[k]) == g && s == Decorate(init[k], colours);
          assert entries[k] == init[k];
        } else {
          assert Group(entries[|entries| - 1]) == g && s == Decorate(entries[|entries| - 1], colours);
        }
      }
    }
  }

  /** `part` is in sorted order and holds only lines of entries of group `g`. */
  predicate GroupPart(part: seq<string>, entries: seq<Entry>, g: nat, colours: Colours) {
    Sorted(part) && forall k :: 0 <= k < |part| ==> FromGroup(part[k], entries, g, colours)
  }

  /** Sorting group `g` keeps its size, orders it, and keeps only that group's
      lines. */
  lemma SortedGroup(entries: seq<Entry>, g: nat, colours: Colours)
    ensures var s := Sort(GroupLines(entries, g, colours));
      |s| == |GroupLines(entries, g, colours)| && GroupPart(s, entries, g, colours)
  {
    var lines := GroupLines(entries, g, colours);
    var s := Sort(lines);
    assert |s| == |lines| by { assert |multiset(s)| == |multiset(lines)|; }
    GroupLinesFromGroup(entries, g, colours);
    forall k | 0 <= k < |s| ensures FromGroup(s[k], entries, g, colours) {
      assert s[k] in multiset(s);
    }
  }

  /** The listing is grouped: the folder lines come first, then the executable lines,
      then the others, and each group is in sorted order. */
  lemma LsGrouped(entries: seq<Entry>, colours: Colours)
    ensures var lines := LsLines(entries, colours);
      var a := |GroupLines(entries, 0, colours)|;
      var b := a + |GroupLines(entries, 1, colours)|;
      a <= b <= |lines| &&
      GroupPart(lines[..a], entries, 0, colours) &&
      GroupPart(lines[a..b], entries, 1, colours) &&
      GroupPart(lines[b..], entries, 2, colours)
  {
    var f := Sort(GroupLines(entries, 0, colours));
    var x := Sort(GroupLines(entries, 1, colours));
    var o := Sort(GroupLines(entries, 2, colours));
    SortedGroup(entries, 0, colours);
    SortedGroup(entries, 1, colours);
    SortedGroup(entries, 2, colours);
    assert LsLines(entries, colours) == f + x + o;
    ThreeParts(f, x, o);
  }

  /** The three parts of a concatenation, read back by position. */
  lemma ThreeParts<T>(f: seq<T>, x: seq<T>, o: seq<T>)
    ensures (f + x + o)[..|f|] == f && (f + x + o)[|f|..|f| + |x|] == x && (f + x + o)[|f| + |x|..] == o
  {
  }

  // ---------------------------------------------------------------------------
  // run_program (src/commands/run.rs)

  /** `parse_output_std`: the child's output stream with its trailing newlines
      removed, or `None` when it is not valid UTF-8 (`decoded` is `None`) or nothing
      is left. */
  function ParseOutputStd(decoded: Option<string>): (r: Option<string>)
    ensures decoded.None? ==> r.None?
    ensures r.Some? ==> r.value != [] && r.value[|r.value| - 1] != '\n'
    ensures r.Some? ==> (IsPrefix(r.value, decoded.value) &&
      forall i :: |r.value| <= i < |decoded.value| ==> decoded.value[i] == '\n')
    ensures decoded.Some? && r.None? ==> forall i :: 0 <= i < |decoded.value| ==> decoded.value[i] == '\n'
  {
    match decoded
    case None => None
    case Some(value) =>
      var output := TrimEndMatches(value, '\n');
      if output == [] then None else Some(output)
  }

  /** Parsing what `parse_output_std` returned changes nothing. */
  lemma ParseOutputStdIdempotent(decoded: Option<string>)
    ensures ParseOutputStd(ParseOutputStd(decoded)) == ParseOutputStd(decoded)
  {
  }

  /** `run_program`: a name the resolver cannot find fails without running anything;
      otherwise the child's two output streams, as decoded text, become the result. */
  function RunProgram(commandName: string, os: OsInstance, currentDir: Path, currentListing: Listing,
                      childStdout: Option<string>, childStderr: Option<string>): (r: CommandOutput)
    ensures r.updatedDir.None?
    ensures FindExecutable(os, commandName, currentDir, currentListing).None? ==>
      r == Failure(commandName + ": not found")
    ensures FindExecutable(os, commandName, currentDir, currentListing).Some? ==>
      r.stdOutput == ParseOutputStd(childStdout) && r.stdError == ParseOutputStd(childStderr)
  {
    if FindExecutable(os, commandName, currentDir, currentListing).None? then
      Failure(commandName + ": not found")
    else
      CommandOutput(None, ParseOutputStd(childStdout), ParseOutputStd(childStderr))
  }
}
