# A verified model of a small interactive shell

This project models the core of `codecrafters-shell-rust`, a small interactive shell written in Rust.
It covers the following parts:

- **Argument tokenizer** (`Parser`, src/parser.rs). A five-state machine (`None`, `SingleQuote`, `DoubleQuote`,
  `Escape`, `EscapeInDoubleQuote`) that turns one command's text into an argument vector.
  `ParseInput` is the source's loop. It is proved equal to a fold of the step function, `Tokenize`, and the
  quoting rules are proved as lemmas about that fold.
- **Output redirection** (`Output`, src/shell/output.rs). Recognising the first `>` of a command, and
  classifying it as stdout or stderr and as truncate or append. It also covers normalising file content
  to end in a newline, and routing the two streams to the console or to a file. The console is a list of printed lines.
  The files are a map from path to text, and both are held in the class `Sinks`.
- **Line editor** (`LineEditor`, src/shell/input.rs). A `(buffer, cursor)` pair that key events update until
  Enter or Ctrl+J submits the line. The terminal is abstract: each redraw is recorded as the text shown after
  the prompt and the column the cursor moves to.
- **Executable resolver** (`Os`, src/os.rs). The index of executables on `PATH`, built by nested loops that
  insert into a map, and the lookup that tries the working directory first.
- **Builtins** (`Builtins`, src/commands/*.rs). They are `echo`, `type`, `cd`, `history`, `ls` and the
  not-found guard and output parsing of `run_program`, each returning the `CommandOutput` record of `Shell`
  (src/shell/mod.rs).
- **The single-file command set** (`Legacy`, src/commands.rs). This file defines the same builtins a second time.
  Its `echo` and `ls` are the ones of src/commands/, so they are modelled once, in `Builtins`.
  It differs in three places:
  - its resolver scans `PATH` on every call and the first match wins;
  - its `cd` expands `~` and resolves the path component by component itself;
  - its `run_program` trims the child's standard output and drops standard error.
- **The early read-eval loop** (`Repl`, src/main.rs). Splitting a line at its first space into a name and an
  argument, and answering `echo` or "command not found".

The filesystem, the environment and the terminal are inputs:
- a directory listing is `Option<seq<Entry>>`, where `None` means unreadable;
- `PATH` is an optional sequence of (directory, listing) pairs;
- `HOME` is an `Option<string>`;
- `Path::exists` is a predicate parameter;
- the `parser::parse_path` function is a function parameter (`PathParser`), because it is not part of this model;
- key events are a sequence.

Paths are sequences of component names below the root.

Behaviour worth noting:
- The `PATH` index keeps the **last** directory that holds a name (`HashMap::insert` overwrites), not the first.
  `Os.LastMatchWins` proves this. `Legacy.ResolversDisagreeOnShadowedNames` shows that it differs from the
  first-match scan of src/commands.rs.
- Tab completes to the **first** known command that has the buffer as a prefix. It does not compute a longest common
  prefix, and it has no second-Tab listing.
- `history` ignores its arguments and always lists the whole history.
- Redirection detection is not quote-aware. `Output.QuotedOperatorNotProtected` shows a quoted `>` taken as an operator.
- There is no Up-arrow history recall and no bulk-paste handling: the editor has no handler for them, so
  they fall into "any other key".

## Model

| member | source | states |
|---|---|---|
| `Shell.Empty` | src/shell/mod.rs:40-42 | all three fields are `None` |
| `Shell.Success` | src/shell/mod.rs:26-31 | only `std_output` is set, to the message |
| `Shell.Failure` | src/shell/mod.rs:33-38 | only `std_error` is set, to the message |
| `Shell.PathUpdate` | src/shell/mod.rs:44-49 | only `updated_dir` is set, to the path |
| `Shell.ConstructorsDistinct` | src/shell/mod.rs:18-49 | the four constructors never build the same record, and each argument can be read back |
| `Parser.ParseInput` | src/parser.rs:9-71 | the loop's result equals the fold of the five-state step function, and no argument is empty |
| `Parser.NoEmptyArguments` | src/parser.rs:24-68 | no token of any input is the empty string |
| `Parser.SpacesSeparate` | src/parser.rs:24-28 | outside quotes a run of spaces ends the current token once and adds no empty tokens |
| `Parser.SingleQuotedLiteral` | src/parser.rs:42-48 | inside single quotes every character except `'` is appended literally, `\` and `"` included |
| `Parser.SingleQuotedRegion` | src/parser.rs:17-48 | `'t'` adds exactly `t` to the current argument: both quotes are consumed and the state returns to unquoted |
| `Parser.DoubleQuotedLiteral` | src/parser.rs:33-41 | inside double quotes, text without `"` or `\` is appended literally |
| `Parser.DoubleQuotedRegion` | src/parser.rs:17-41 | `"t"` (no escapes) adds exactly `t`, with both quotes consumed |
| `Parser.EscapeUnquoted` | src/parser.rs:49-52 | an unquoted `\` appends the next character whatever it is, and returns to the unquoted state |
| `Parser.EscapeInDoubleQuotes` | src/parser.rs:53-61 | inside double quotes `\"` gives `"` and `\\` gives `\`, and any other escaped character keeps the backslash |
| `Parser.UnterminatedQuote` | src/parser.rs:64-68 | text after an unterminated `'` is still emitted as the last argument |
| `Parser.UnterminatedDoubleQuote` | src/parser.rs:64-68 | text after an unterminated `"` is still emitted as the last argument |
| `Parser.TrailingBackslash` | src/parser.rs:64-68 | a lone backslash at the end of the input contributes nothing |
| `Parser.PlainTokenize` | src/parser.rs:17-31 | without `'`, `"` or `\`, tokenizing is splitting on `' '` only (not tabs) and dropping empty pieces |
| `Parser.ExampleSingleQuotes` | src/parser.rs:42-48 | `echo 'hello   world'` gives `["echo", "hello   world"]` |
| `Parser.ExampleEscapedQuote` | src/parser.rs:53-61 | `echo "a\"b"` gives `["echo", "a\"b"]` |
| `Output.DefineOutputProcessor` | src/shell/output.rs:9-49 | no `>` gives `Console`. Otherwise, at the first `>`, a path error becomes the prefixed message, a second `>` means append, and a `2` just before it selects stderr |
| `Output.ConsoleIffNoOperator` | src/shell/output.rs:9-48 | the result is `Console` exactly when the command holds no `>`, and every error carries the prefix `Invalid redirect output operation: ` |
| `Output.RedirectAt` | src/shell/output.rs:10-45 | the result depends only on the first `>`: the bytes around it and the trimmed text after the operator |
| `Output.OperatorsRecognised` | src/shell/output.rs:14-42 | `>`, `1>`, `2>`, `>>`, `1>>`, `2>>`: a `2` before gives stderr, a second `>` gives append, and the trimmed rest is the path text |
| `Output.QuotedOperatorNotProtected` | src/shell/output.rs:10-12 | the scan ignores quotes: `echo "a>b"` redirects stdout to the path text `b"` |
| `Output.EnsureTrailingNewline` | src/shell/output.rs:107-114 | `None` gives `""`, and the result is empty or ends in `\n`. It extends the content by at most one character and keeps empty or `\n`-ended content unchanged |
| `Output.EnsureTrailingNewlineIdempotent` | src/shell/output.rs:107-114 | normalising twice is normalising once |
| `Output.FilesAfterWrite` | src/shell/output.rs:84-100 | truncate replaces the file's text, append concatenates after the old text (a missing file is empty), and other files are unchanged |
| `Output.TruncateTwiceKeepsOneCopy` | src/shell/output.rs:98-99 | two truncating writes of the same content leave one copy |
| `Output.AppendTwiceAddsTwoCopies` | src/shell/output.rs:87-97 | two appending writes leave the old text followed by two copies |
| `Output.ConsoleLines` | src/shell/output.rs:57-81 | with a file target only the other stream is printed. In console mode stdout (last command only, exactly its text with trailing `\n` trimmed) is printed before stderr, and nothing else |
| `Output.FilesAfterOutput` | src/shell/output.rs:57-81 | console mode changes no file; a file target changes only that file, a truncating write leaves exactly the normalised redirected stream, and an appending write leaves the old text (empty for a new file) followed by it |
| `Output.RedirectionSeparatesStreams` | src/shell/output.rs:67-80 | with a file target the redirected stream reaches only the file and the other stream only the console |
| `Output.ConsoleModeShowsOnlyErrorsMidPipeline` | src/shell/output.rs:58-65 | in console mode no file changes, stdout is printed only for the last command with trailing `\n` trimmed, and stderr is always printed |
| `Output.Sinks.WriteOutputToFile` | src/shell/output.rs:84-105 | the files become `FilesAfterWrite` of the old files, and the console is unchanged |
| `Output.Sinks.ProcessOutput` | src/shell/output.rs:51-82 | the console gains exactly the routed lines and the files are written only for the redirected stream |
| `LineEditor.RedrawLine` | src/shell/input.rs:90-103 | the redraw column is the prompt length plus the cursor |
| `LineEditor.InsertAt` | src/shell/input.rs:36 | the character is placed at the cursor and the text around it is kept in order |
| `LineEditor.RemoveAt` | src/shell/input.rs:55 | exactly the character at the index is removed |
| `LineEditor.RemoveUndoesInsert` | src/shell/input.rs:35-58 | removing what was inserted gives the text back |
| `LineEditor.FirstMatch` | src/shell/input.rs:60-64 | the first known command that has the buffer as a prefix, or none when no command has it |
| `LineEditor.Step` | src/shell/input.rs:22-81 | every key handler keeps `0 <= cursor <= length of buffer`, and the redraw column stays within prompt plus text |
| `LineEditor.HandleEvent` | src/shell/input.rs:22-81 | the loop body on the loop's variables agrees with `Step` |
| `LineEditor.RetrieveUserInput` | src/shell/input.rs:10-88 | the event loop returns the buffer, the submission flag and the redraws of the fold `Run` over the events |
| `LineEditor.CharInsertsAtCursor` | src/shell/input.rs:35-39 | a character key other than Ctrl+J inserts at the cursor and moves the cursor past it |
| `LineEditor.ArrowsClamp` | src/shell/input.rs:40-51 | Left and Right move the cursor by one, clamped to 0 and the buffer length, and leave the buffer unchanged |
| `LineEditor.BackspaceDeletesBeforeCursor` | src/shell/input.rs:52-58 | Backspace removes the character before the cursor; at 0 nothing changes and nothing is drawn |
| `LineEditor.BackspaceUndoesChar` | src/shell/input.rs:35-58 | typing a character and then Backspace restores the editor |
| `LineEditor.TabCompletesFirstMatch` | src/shell/input.rs:59-73 | Tab replaces the buffer by the first matching command plus a space, with the cursor at the end; with no match the buffer is unchanged and the bell is drawn |
| `LineEditor.SubmitKeys` | src/shell/input.rs:29-77 | Enter and Ctrl+J end the loop with the buffer as it is; Ctrl+J inserts no `j` |
| `LineEditor.IgnoredEvents` | src/shell/input.rs:22-80 | non-press events and keys without a handler change nothing and draw nothing |
| `LineEditor.RedrawsInsideLine` | src/shell/input.rs:90-103 | every redraw of a session puts the cursor between the prompt's end and the end of the shown text |
| `LineEditor.ByteCursorInsert` | src/shell/input.rs:35-37 | with the cursor used as a byte offset, insertion fails exactly when the offset is not a character boundary |
| `LineEditor.ByteCursorRight` | src/shell/input.rs:46-51 | with the cursor used as a byte offset, Right advances it up to the text's length in bytes |
| `LineEditor.ByteCursorBackspace` | src/shell/input.rs:52-58 | with the cursor used as a byte offset, Backspace fails exactly when the byte before the cursor is not a character boundary or is the end of the text |
| `LineEditor.ByteCursorBackspacePanicsAfterMultiByteChar` | src/shell/input.rs:35-58 | typing `é`, then Right, then Backspace makes the byte-indexed `remove` fail |
| `LineEditor.ByteCursorPanicsAfterMultiByteChar` | src/shell/input.rs:35-38 | typing `é` then `a` makes the byte-indexed insert fail |
| `LineEditor.TypingNeverFails` | src/shell/input.rs:35-39 | in the character-indexed editor, typing any text from an empty line gives that text with the cursor at its end |
| `Os.PlainNameMatch` | src/os.rs:81 | for a plain command name, `Path::ends_with` is equality with the entry's name |
| `Os.FolderMatch` | src/os.rs:69-87 | the first entry in listing order that ends with the name and is executable; none when the directory is unreadable or holds none |
| `Os.FindExecutableFolder` | src/os.rs:69-87 | the loop with its early return computes `FolderMatch` |
| `Os.AddEntriesEffect` | src/os.rs:50-62 | inserting a directory adds exactly its executable names, each mapped into that directory |
| `Os.IndexKeys` | src/os.rs:41-67 | a name is indexed exactly when some readable `PATH` directory lists an executable of that name |
| `Os.LastMatchWins` | src/os.rs:45-59 | with duplicates across `PATH` directories, the index holds the path in the last one |
| `Os.IndexSound` | src/os.rs:55-60 | every index entry is an executable, keyed by its file name, inside a `PATH` directory |
| `Os.LoadPathCommands` | src/os.rs:41-67 | the nested loops build `PathIndex`, which is empty when `PATH` is unset, and unreadable directories are skipped |
| `Os.NewInstance` | src/os.rs:16-20 | the instance holds the `PATH` index |
| `Os.FindExecutable` | src/os.rs:22-34 | a match in the working directory wins without consulting the index; otherwise the result is exactly the index entry or none |
| `Os.FindExecutableOnPath` | src/os.rs:22-34 | through a fresh index, a name is found iff some `PATH` directory holds it, and then in the last such directory |
| `Os.KnownCommands` | src/os.rs:36-38 | the known-command list holds every index key exactly once |
| `Legacy.ScanPath` | src/commands.rs:65-67 | the first `PATH` directory in order where the folder search hits, or none when none hits |
| `Legacy.FindExecutable` | src/commands.rs:58-68 | working directory first, then the `PATH` scan; none when `PATH` is unset |
| `Legacy.PlainFolderMatch` | src/commands.rs:70-88 | for a plain name the folder search hits iff the directory lists it as executable, and returns that path |
| `Legacy.ScanFindsFirst` | src/commands.rs:65-67 | the scan returns the first `PATH` directory holding the name |
| `Legacy.ResolversDisagreeOnShadowedNames` | src/commands.rs:58-68 | with a name in two `PATH` directories, this scan gives the first and the index of src/os.rs gives the second |
| `Legacy.ResolversAgreeOnUniqueNames` | src/commands.rs:58-68 | with a name in one `PATH` directory only, both resolvers agree |
| `Legacy.TypeFn` | src/commands.rs:22-38 | a non-builtin name this resolver misses fails with `X: not found` |
| `Legacy.ExpandTilde` | src/commands.rs:95-102 | a leading `~` is replaced by HOME and fails exactly when HOME is unset; other paths are unchanged |
| `Legacy.CdResult` | src/commands.rs:90-128 | no argument gives `empty()`, and `~` without HOME fails with `HOME directory is not available`. The directory changes to the resolved target iff it exists; when it does not, the result is exactly `cd: <expanded path>: No such file or directory` |
| `Legacy.Walk` | src/commands.rs:107-121 | a root component makes the result the whole path. Otherwise the depth grows by at most one per component, and without `..` the base is kept as a prefix |
| `Legacy.Target` | src/commands.rs:104-121 | an absolute argument gives the path itself, and a relative one is at most one level deeper per component than the working directory |
| `Legacy.Cd` | src/commands.rs:90-128 | the component loop computes `CdResult` |
| `Legacy.WalkAppend` | src/commands.rs:107-121 | walking root-free components in two parts is walking them in one |
| `Legacy.WalkNames` | src/commands.rs:116-118 | normal components push, so a relative path of names descends from the working directory |
| `Legacy.ParentAndCurrent` | src/commands.rs:113-119 | `..` pops one component and never goes above the root, and `.` changes nothing |
| `Legacy.AbsoluteIgnoresCurrentDir` | src/commands.rs:109-112 | a root component replaces the base with the whole path, whatever the working directory |
| `Legacy.TildeWithoutHome` | src/commands.rs:95-98 | `cd ~…` with HOME unset fails with `HOME directory is not available` |
| `Legacy.CdVersionsAgree` | src/commands.rs:90-128 | this `cd` and the one of src/commands/cd.rs move to the same directory, and they differ only in the path named by the not-found message |
| `Legacy.RunProgram` | src/commands.rs:40-56 | an unresolved name fails with `X: not found`, undecodable output gives `empty()`, and otherwise stdout is trimmed at both ends |
| `Builtins.Echo` | src/commands/echo.rs:3-4 | only stdout is set; no arguments give `""`, and the length is the sum of the argument lengths plus one per gap |
| `Builtins.EchoSplitsBack` | src/commands/echo.rs:4 | when no argument holds a space, splitting the output on `' '` gives the arguments back |
| `Builtins.TypeFn` | src/commands/type_fn.rs:6-22 | no argument fails with `: not found`, and the six builtin names are builtins. A resolver hit gives `X is <path>` and a miss fails with `X: not found`. Exactly one stream is set |
| `Builtins.TypeLooksAtFirstOnly` | src/commands/type_fn.rs:7-15 | only the first argument is examined, and a builtin's answer ignores the resolver |
| `Builtins.Cd` | src/commands/cd.rs:6-21 | no argument gives `empty()`, a `parse_path` error is the failure message, and a missing target fails with `cd: <arg>: No such file or directory` |
| `Builtins.CdMovesOnlyToExistingTargets` | src/commands/cd.rs:11-20 | the directory changes iff the argument resolves to an existing path, and then to that path alone |
| `Builtins.History` | src/commands/history.rs:3-9 | the loop produces `success` of the numbered listing of the whole history |
| `Builtins.HistoryLines` | src/commands/history.rs:5-7 | line `i` of the listing is `i+1`, a space and entry `i`, one line per entry, with a final newline |
| `Builtins.LineReadsBack` | src/commands/history.rs:5-7 | the text before a listed line's first space is a numeral whose value is the printed number, and the rest is the command |
| `Builtins.HistoryNumbersReadBack` | src/commands/history.rs:4-8 | the listing has one line per command, and line `i` reads back as the number `i+1` and command `i` |
| `Builtins.EmptyHistory` | src/commands/history.rs:4-8 | an empty history lists nothing |
| `Builtins.Ls` | src/commands/ls.rs:6-42 | an unreadable directory gives `empty()`; otherwise the output is the three sorted groups joined with `\n` |
| `Builtins.Decorate` | src/commands/ls.rs:25-31 | a folder is shown as `[name]`, an executable as `*name`, each inside its group's colour codes, and anything else as the plain name |
| `Builtins.LsLines` | src/commands/ls.rs:34-41 | the listing has exactly one line per readable entry |
| `Builtins.GroupsPartition` | src/commands/ls.rs:15-32 | the three groups together hold each entry's line exactly once |
| `Builtins.LsListsEveryEntryOnce` | src/commands/ls.rs:15-41 | the listing is a permutation of the entries' decorated lines |
| `Builtins.GroupLinesFromGroup` | src/commands/ls.rs:25-31 | a group's lines come only from entries of that kind (`[name]`, `*name` or the plain name) |
| `Builtins.SortedGroup` | src/commands/ls.rs:34-36 | each group is sorted without losing or gaining lines |
| `Builtins.LsGrouped` | src/commands/ls.rs:34-39 | folder lines come first, then executables, then the rest, and each group is sorted |
| `Builtins.ParseOutputStd` | src/commands/run.rs:23-36 | undecodable output gives none, and all trailing `\n` are stripped. A `Some` result is non-empty, does not end in `\n` and is a prefix of the input |
| `Builtins.ParseOutputStdIdempotent` | src/commands/run.rs:28-33 | parsing its own output again changes nothing |
| `Builtins.RunProgram` | src/commands/run.rs:5-21 | an unresolved name fails with `X: not found` and spawns nothing; otherwise both streams are parsed |
| `Repl.SplitCommand` | src/main.rs:24-38 | without a space the name is the whole trimmed line and the argument is empty, and the name never holds a space |
| `Repl.SplitCommandRoundTrip` | src/main.rs:24-38 | a trimmed name, a space and a trimmed argument split back into that name and argument |
| `Repl.SplitTrimsArgument` | src/main.rs:24-38 | the spaces after the first one are trimmed away: `echo   hello` splits into `echo` and `hello` |
| `Repl.ProcessCommand` | src/main.rs:40-43 | `echo` prints its argument, and any other name prints the full command followed by `: command not found` |
| `Repl.Turn` | src/main.rs:15-19 | the loop stops exactly when the trimmed line is `exit`, and otherwise dispatches the trimmed line |
| `Repl.EchoPrintsArgument` | src/main.rs:33-41 | `echo <arg>` prints `<arg>`, and `echo` alone prints an empty line |
| `Repl.UnknownCommand` | src/main.rs:40-43 | a single word other than `echo` and `exit` prints `<word>: command not found` |

## Left out

- Process spawning and waiting in `run_program` (src/commands/run.rs:10-14, src/commands.rs:45-49). The child's
  decoded output streams are parameters, and UTF-8 decoding is a `None`/`Some` input.
- Terminal I/O: raw mode, crossterm events, clearing, cursor moves and flushing. Events are a sequence, and a redraw
  is its text and column.
- Console printing and file writes as effects. The console is a sequence of lines and files are a map.
  Errors from opening or writing a file ("Failed to write output file") are not modelled.
- Filesystem and environment queries (`read_dir`, `is_executable`, `is_dir`, `exists`, `PATH`, `HOME`). They are inputs.
  Directory entries that the iterator reports as errors are absent from the listing.
- `parser::parse_path` is not part of this model and is a function parameter. `Legacy.CdVersionsAgree` relates
  it to the visible resolution rule of src/commands.rs.
- The colour codes in `ls` are parameters (`Colours`), so their exact escape sequences are not modelled.
  Sorting is done on the decorated strings, as the source does.
- `exit` and `pwd` (src/commands/exit.rs, src/commands/pwd.rs, src/commands.rs:10-16): a process exit and a
  one-line `success` of the displayed path.
- `echo` and `ls` of src/commands.rs are textually the same as those of src/commands/ and are modelled once.
- The stdin read loop of `main` beyond the `exit` test and `process_comman`.
- The order of `get_know_commands`: `HashMap` order is unspecified, so `Os.KnownCommands` promises only
  that each key appears once.
- Non-Unix path prefixes (`Component::Prefix`) do not occur in the path model.
- `Os.PlainNameMatch`: matching by `Path::ends_with` is modelled for every name, but reduced to name equality
  only for plain names (no `/`, not `.` or `..`).

## Findings

| source | as written | input that shows it | evidently intended | confidence | as-written member | corrected member |
|---|---|---|---|---|---|---|
| src/shell/input.rs:35-68 | `cursor_pos` counts characters but is passed to `String::insert`, which takes a byte offset, and to `String::remove` (input.rs:55), which does too. `Right` also clamps to `user_input.len()`, and Tab sets the cursor to `user_input.len()` (input.rs:68); both are lengths in bytes | typing `é` then `a`: the cursor is 1, inside the two bytes of `é`, so `insert` panics; typing `é`, Right, Backspace: Right moves the cursor to 2 and `remove(1)` panics | the cursor is a character index: typing never fails, and Backspace removes the character before the cursor | high (not executed) | `LineEditor.ByteCursorPanicsAfterMultiByteChar`, `LineEditor.ByteCursorBackspacePanicsAfterMultiByteChar` | `LineEditor.TypingNeverFails`, `LineEditor.BackspaceDeletesBeforeCursor` |
