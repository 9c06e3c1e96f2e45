/** Output redirection (src/shell/output.rs): recognising `>`, `>>`, `1>`, `2>`,
    `2>>` in a command's text, and routing a command's two output streams to the
    console or to a file. */
module Output {
  import opened Wrappers
  import opened Strings
  import opened Paths

  /** Where a command's output goes: both streams to the console, or one of them to
      a file, truncating it or appending to it. */
  datatype OutputProcessor =
    | Console
    | StdoutToFile(path: Path, append: bool)
    | StderrToFile(path: Path, append: bool)

  const RedirectErrorPrefix := "Invalid redirect output operation: "

  /** Whether the `>` at `position` is doubled into `>>`. */
  function IsAppend(command: string, position: nat): bool
    requires position < |command|
  {
    position + 1 < |command| && command[position + 1] == '>'
  }

  /** The path text of a redirection whose `>` is at `position`: what follows the
      operator, trimmed. */
  function RedirectTarget(command: string, position: nat): string
    requires position < |command|
  {
    Trim(command[(if IsAppend(command, position) then position + 2 else position + 1)..])
  }

  /** `define_output_processor`: the first `>` in the text is the operator; a second
      `>` right after it makes it an append, and a `2` right before it redirects
      standard error instead of standard output. The rest of the text after the
      operator, trimmed, is the path. The scan does not look at quotes. */
  function DefineOutputProcessor(command: string, currentDir: Path, parsePath: PathParser)
    : (r: Result<OutputProcessor, string>)
    ensures '>' !in command <==> r == Ok(Console)
    ensures '>' in command ==>
      var position := Find(command, '>').value;
      var resolved := parsePath(RedirectTarget(command, position), currentDir);
      (r.Err? <==> resolved.Err?) &&
      (r.Err? ==> r.error == RedirectErrorPrefix + resolved.error) &&
      (r.Ok? ==> r.value.path == resolved.value && r.value.append == IsAppend(command, position) &&
                 (r.value.StderrToFile? <==> position >= 1 && command[position - 1] == '2'))
  {
    match Find(command, '>')
    case None => Ok(Console)
    case Some(position) =>
      Redirected(parsePath(RedirectTarget(command, position), currentDir),
                 position >= 1 && command[position - 1] == '2', IsAppend(command, position))
  }

  /** What a file redirection resolves to, once the path text is known. */
  function Redirected(pathResult: Result<Path, string>, toStderr: bool, append: bool)
    : Result<OutputProcessor, string>
  {
    match pathResult
    case Err(m) => Err(RedirectErrorPrefix + m)
    case Ok(p) => Ok(if toStderr then StderrToFile(p, append) else StdoutToFile(p, append))
  }

  /** A command without `>` goes to the console, and only such a command does; a
      failed path resolution is reported under a fixed prefix. */
  lemma ConsoleIffNoOperator(command: string, dir: Path, parsePath: PathParser)
    ensures ('>' !in command) <==> DefineOutputProcessor(command, dir, parsePath) == Ok(Console)
    ensures DefineOutputProcessor(command, dir, parsePath).Err? ==>
      IsPrefix(RedirectErrorPrefix, DefineOutputProcessor(command, dir, parsePath).error)
  {
    match Find(command, '>')
    case None =>
    case Some(position) =>
      RedirectAt(command, position, dir, parsePath);
  }

  /** The result in terms of the position of the first `>`. */
  lemma RedirectAt(s: string, position: nat, dir: Path, parsePath: PathParser)
    requires Find(s, '>') == Some(position)
    ensures DefineOutputProcessor(s, dir, parsePath) ==
      Redirected(parsePath(RedirectTarget(s, position), dir),
                 position >= 1 && s[position - 1] == '2', IsAppend(s, position))
  {
  }

  /** Every operator of the syntax (`>`, `1>`, `2>`, `>>`, `1>>`, `2>>`), written
      after a command that holds no `>` and does not end in a digit, and followed by
      a target that does not start with `>`, is recognised: a `2` redirects standard
      error, a doubled `>` appends, and the trimmed target text is what gets resolved. */
  lemma OperatorsRecognised(cmd: string, digit: string, doubled: bool, target: string,
                            dir: Path, parsePath: PathParser)
    requires digit == "" || digit == "1" || digit == "2"
    requires '>' !in cmd && (cmd == [] || !('0' <= cmd[|cmd| - 1] <= '9'))
    requires target == [] || target[0] != '>'
    ensures DefineOutputProcessor(cmd + digit + (if doubled then ">>" else ">") + target, dir, parsePath)
      == Redirected(parsePath(Trim(target), dir), digit == "2", doubled)
  {
    var s := cmd + digit + (if doubled then ">>" else ">") + target;
    var position := |cmd| + |digit|;
    OperatorScan(cmd, digit, doubled, target);
    RedirectAt(s, position, dir, parsePath);
  }

  /** Where the scan finds such an operator, and what it reads around it. */
  lemma OperatorScan(cmd: string, digit: string, doubled: bool, target: string)
    requires digit == "" || digit == "1" || digit == "2"
    requires '>' !in cmd && (cmd == [] || !('0' <= cmd[|cmd| - 1] <= '9'))
    requires target == [] || target[0] != '>'
    ensures var s := cmd + digit + (if doubled then ">>" else ">") + target;
      var position := |cmd| + |digit|;
      Find(s, '>') == Some(position) && IsAppend(s, position) == doubled &&
      RedirectTarget(s, position) == Trim(target) &&
      (position >= 1 && s[position - 1] == '2') == (digit == "2")
  {
    var op := if doubled then ">>" else ">";
    var s := cmd + digit + op + target;
    var position := |cmd| + |digit|;
    assert s[position] == '>';
    assert s[..position] == cmd + digit;
    FirstIsFind(s, '>', position);
    assert doubled ==> s[position + 1] == '>';
    assert !doubled ==> position + 1 == |cmd + digit + op|;
    assert IsAppend(s, position) == doubled;
    assert s[(if doubled then position + 2 else position + 1)..] == target;
    assert (position >= 1 && s[position - 1] == '2') == (digit == "2");
  }

  /** The first occurrence of `c` is what `Find` reports. */
  lemma FirstIsFind(s: string, c: char, p: nat)
    requires p < |s| && s[p] == c && c !in s[..p]
    ensures Find(s, c) == Some(p)
  {
  }

  /** Where the scan finds the operator in `echo "a>b"`. */
  lemma QuotedExampleScan()
    ensures Find("echo \"a>b\"", '>') == Some(7)
    ensures !IsAppend("echo \"a>b\"", 7) && "echo \"a>b\""[6] != '2'
  {
    var s := "echo \"a>b\"";
    assert s[..7] == "echo \"a";
    FirstIsFind(s, '>', 7);
  }

  lemma QuotedExampleTarget()
    ensures RedirectTarget("echo \"a>b\"", 7) == "b\""
  {
    var s := "echo \"a>b\"";
    assert !IsAppend(s, 7);
    assert s[8..] == "b\"";
    TrimNoOp("b\"");
  }

  /** Only the first `>` counts, and quoting does not hide it: `echo "a>b"` sends
      standard output to the file named by the text `b"`. */
  lemma QuotedOperatorNotProtected(dir: Path, parsePath: PathParser)
    ensures DefineOutputProcessor("echo \"a>b\"", dir, parsePath) ==
      Redirected(parsePath("b\"", dir), false, false)
  {
    QuotedExampleScan();
    QuotedExampleTarget();
    RedirectAt("echo \"a>b\"", 7, dir, parsePath);
  }

  // ---------------------------------------------------------------------------
  // Writing to files

  /** `ensure_trailing_newline`: no content gives the empty text; other content is
      kept and gets one `\n` added unless it is empty or already ends with one. */
  function EnsureTrailingNewline(content: Option<string>): (r: string)
    ensures content.None? ==> r == []
    ensures r == [] || r[|r| - 1] == '\n'
    ensures content.Some? ==> IsPrefix(content.value, r) && |r| <= |content.value| + 1
    ensures content.Some? && (content.value == [] || content.value[|content.value| - 1] == '\n')
      ==> r == content.value
  {
    match content
    case None => []
    case Some(s) =>
      if s == [] then s
      else if s[|s| - 1] == '\n' then s
      else s + "\n"
  }

  /** Normalising twice is normalising once. */
  lemma EnsureTrailingNewlineIdempotent(content: Option<string>)
    ensures EnsureTrailingNewline(Some(EnsureTrailingNewline(content))) ==
      EnsureTrailingNewline(content)
  {
  }

  /** The files' contents after `write_output_to_file`: a truncating write replaces
      the file's text, an appending one adds to it (a missing file counts as empty). */
  function FilesAfterWrite(files: map<Path, string>, outputPath: Path,
                           content: Option<string>, append: bool): (r: map<Path, string>)
    ensures r.Keys == files.Keys + {outputPath}
    ensures forall q :: q in files && q != outputPath ==> r[q] == files[q]
    ensures !append ==> r[outputPath] == EnsureTrailingNewline(content)
    ensures append ==>
      r[outputPath] == (if outputPath in files then files[outputPath] else []) + EnsureTrailingNewline(content)
  {
    var before := if append && outputPath in files then files[outputPath] else [];
    files[outputPath := before + EnsureTrailingNewline(content)]
  }

  /** Two truncating writes of the same content leave one copy of it. */
  lemma TruncateTwiceKeepsOneCopy(files: map<Path, string>, p: Path, content: Option<string>)
    ensures var once := FilesAfterWrite(files, p, content, false);
      FilesAfterWrite(once, p, content, false) == once
  {
  }

  /** Two appending writes add the content twice, after what was there. */
  lemma AppendTwiceAddsTwoCopies(files: map<Path, string>, p: Path, content: Option<string>)
    ensures FilesAfterWrite(FilesAfterWrite(files, p, content, true), p, content, true)[p] ==
      (if p in files then files[p] else []) + EnsureTrailingNewline(content) + EnsureTrailingNewline(content)
  {
  }

  // ---------------------------------------------------------------------------
  // Routing

  /** The lines `process_output` prints, in order. On the console, standard output
      is shown only for the last command of a pipeline, without trailing newlines;
      standard error is always shown. When one stream goes to a file, the other is
      printed as it is. */
  function ConsoleLines(processor: OutputProcessor, stdOutput: Option<string>,
                        stdError: Option<string>, lastPipedCommand: bool): (r: seq<string>)
    ensures processor.StdoutToFile? ==> r == OptionToSeq(stdError)
    ensures processor.StderrToFile? ==> r == OptionToSeq(stdOutput)
    ensures processor.Console? ==> |r| == (if lastPipedCommand && stdOutput.Some? then 1 else 0) + |OptionToSeq(stdError)|
    ensures processor.Console? && stdError.Some? ==> r[|r| - 1] == stdError.value
    ensures processor.Console? && lastPipedCommand && stdOutput.Some? ==>
      r[0] == TrimEndMatches(stdOutput.value, '\n') &&
      IsPrefix(r[0], stdOutput.value) && (r[0] == [] || r[0][|r[0]| - 1] != '\n')
  {
    match processor
    case Console =>
      (if lastPipedCommand && stdOutput.Some? then [TrimEndMatches(stdOutput.value, '\n')] else [])
      + OptionToSeq(stdError)
    case StdoutToFile(_, _) => OptionToSeq(stdError)
    case StderrToFile(_, _) => OptionToSeq(stdOutput)
  }

  /** The files after `process_output`: the redirected stream is written, nothing
      is written in console mode. */
  function FilesAfterOutput(files: map<Path, string>, processor: OutputProcessor,
                            stdOutput: Option<string>, stdError: Option<string>): (r: map<Path, string>)
    ensures processor.Console? ==> r == files
    ensures !processor.Console? ==> r.Keys == files.Keys + {processor.path}
    ensures forall q :: q in files && (processor.Console? || q != processor.path) ==> r[q] == files[q]
    ensures processor.StdoutToFile? && !processor.append ==> r[processor.path] == EnsureTrailingNewline(stdOutput)
    ensures processor.StderrToFile? && !processor.append ==> r[processor.path] == EnsureTrailingNewline(stdError)
    ensures processor.StdoutToFile? && processor.append ==>
      r[processor.path] == (if processor.path in files then files[processor.path] else []) + EnsureTrailingNewline(stdOutput)
    ensures processor.StderrToFile? && processor.append ==>
      r[processor.path] == (if processor.path in files then files[processor.path] else []) + EnsureTrailingNewline(stdError)
  {
    match processor
    case Console => files
    case StdoutToFile(p, append) => FilesAfterWrite(files, p, stdOutput, append)
    case StderrToFile(p, append) => FilesAfterWrite(files, p, stdError, append)
  }

  /** A redirected stream reaches only its file and the other stream only the console:
      what is printed does not depend on the redirected stream, and what is written
      does not depend on the other one. */
  lemma RedirectionSeparatesStreams(files: map<Path, string>, processor: OutputProcessor,
                                    o1: Option<string>, o2: Option<string>,
                                    e1: Option<string>, e2: Option<string>, last: bool)
    requires !processor.Console?
    ensures processor.StdoutToFile? ==>
      ConsoleLines(processor, o1, e1, last) == ConsoleLines(processor, o2, e1, last) &&
      FilesAfterOutput(files, processor, o1, e1) == FilesAfterOutput(files, processor, o1, e2)
    ensures processor.StderrToFile? ==>
      ConsoleLines(processor, o1, e1, last) == ConsoleLines(processor, o1, e2, last) &&
      FilesAfterOutput(files, processor, o1, e1) == FilesAfterOutput(files, processor, o2, e1)
    ensures |ConsoleLines(processor, o1, e1, last)| <= 1
  {
  }

  /** In console mode no file changes, and a command that is not last in its pipeline
      shows only its standard error. */
  lemma ConsoleModeShowsOnlyErrorsMidPipeline(files: map<Path, string>,
                                              out: Option<string>, err: Option<string>)
    ensures FilesAfterOutput(files, Console, out, err) == files
    ensures ConsoleLines(Console, out, err, false) == OptionToSeq(err)
    ensures ConsoleLines(Console, out, err, true) ==
      (if out.Some? then [TrimEndMatches(out.value, '\n')] else []) + OptionToSeq(err)
  {
  }

  /** The console and the files: the two places output ends up. */
  class Sinks {
    /** The lines printed so far, each without the newline `println!` adds. */
    var console: seq<string>
    /** The text of every file the shell has written. */
    var files: map<Path, string>

    constructor (initialFiles: map<Path, string>)
      ensures console == [] && files == initialFiles
    {
      console := [];
      files := initialFiles;
    }

    /** `write_output_to_file`. */
    method WriteOutputToFile(outputPath: Path, content: Option<string>, append: bool)
      modifies this
      ensures files == FilesAfterWrite(old(files), outputPath, content, append)
      ensures console == old(console)
    {
      var text := EnsureTrailingNewline(content);
      if append {
        var before := if outputPath in files then files[outputPath] else [];
        files := files[outputPath := before + text];
      } else {
        files := files[outputPath := text];
      }
    }

    /** `process_output`. */
    method ProcessOutput(processor: OutputProcessor, stdOutput: Option<string>,
                         stdError: Option<string>, lastPipedCommand: bool)
      modifies this
      ensures console == old(console) + ConsoleLines(processor, stdOutput, stdError, lastPipedCommand)
      ensures files == FilesAfterOutput(old(files), processor, stdOutput, stdError)
    {
      match processor {
        case Console =>
          if lastPipedCommand && stdOutput.Some? {
            console := console + [TrimEndMatches(stdOutput.value, '\n')];
          }
          if stdError.Some? {
            console := console + [stdError.value];
          }
        case StdoutToFile(outputPath, append) =>
          WriteOutputToFile(outputPath, stdOutput, append);
          if stdError.Some? {
            console := console + [stdError.value];
          }
        case StderrToFile(outputPath, append) =>
          if stdOutput.Some? {
            console := console + [stdOutput.value];
          }
          WriteOutputToFile(outputPath, stdError, append);
      }
    }
  }
}
