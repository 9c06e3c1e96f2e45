/** The read-eval-print loop of src/main.rs: each line read is trimmed; `exit` ends
    the loop, and any other line is split into a command name and an argument at its
    first space and answered with one printed line. */
module Repl {
  import opened Wrappers
  import opened Strings

  /** The name and the argument `process_comman` takes from a command line. */
  datatype Call = Call(name: string, argument: string)

  /** Splitting at the first space: the trimmed text before it and the trimmed text
      from it on; without a space, the whole trimmed line and no argument. */
  function SplitCommand(command: string): (r: Call)
    ensures ' ' !in command ==> r == Call(Trim(command), "")
    ensures ' ' !in r.name
  {
    match Find(command, ' ')
    case Some(i) =>
      TrimKeepsOut(command[..i], ' ');
      Call(Trim(command[..i]), Trim(command[i..]))
    case None =>
      TrimKeepsOut(command, ' ');
      Call(Trim(command[0..]), "")
  }

  /** A character absent from a string is absent from its trimmed form. */
  lemma TrimKeepsOut(s: string, c: char)
    requires c !in s
    ensures c !in Trim(s)
  {
    var t := TrimStart(s);
    TrimStartShape(s);
    TrimEndShape(t);
    assert forall k :: 0 <= k < |t| ==> t[k] == s[|s| - |t| + k];
    var r := Trim(s);
    assert forall k :: 0 <= k < |r| ==> r[k] == t[k];
  }

  /** A name and an argument, both already trimmed, with one space between them are
      split back into that name and that argument. */
  lemma SplitCommandRoundTrip(name: string, argument: string)
    requires name != [] && ' ' !in name
    requires !IsWhitespace(name[0]) && !IsWhitespace(name[|name| - 1])
    requires argument == [] || (!IsWhitespace(argument[0]) && !IsWhitespace(argument[|argument| - 1]))
    ensures SplitCommand(name + " " + argument) == Call(name, argument)
  {
    var command := name + " " + argument;
    FindAfter(name, argument);
    assert command[..|name|] == name;
    assert command[|name|..] == " " + argument;
    TrimNoOp(name);
    assert TrimStart(" " + argument) == TrimStart(argument) by {
      assert (" " + argument)[1..] == argument;
    }
    assert TrimStart(argument) == argument;
    TrimNoOp(argument);
  }

  /** Leading whitespace does not survive `TrimStart`. */
  lemma {:induction false} TrimStartSkipsWhitespace(ws: string, rest: string)
    requires forall i :: 0 <= i < |ws| ==> IsWhitespace(ws[i])
    ensures TrimStart(ws + rest) == TrimStart(rest)
    decreases |ws|
  {
    if ws == [] {
      assert ws + rest == rest;
    } else {
      assert (ws + rest)[0] == ws[0];
      assert (ws + rest)[1..] == ws[1..] + rest;
      TrimStartSkipsWhitespace(ws[1..], rest);
    }
  }

  /** However many spaces follow the first one, the argument is what comes after
      them: `echo   hello` gives the name `echo` and the argument `hello`. */
  lemma SplitTrimsArgument(name: string, spaces: string, argument: string)
    requires name != [] && ' ' !in name
    requires !IsWhitespace(name[0]) && !IsWhitespace(name[|name| - 1])
    requires forall i :: 0 <= i < |spaces| ==> spaces[i] == ' '
    requires argument == [] || (!IsWhitespace(argument[0]) && !IsWhitespace(argument[|argument| - 1]))
    ensures SplitCommand(name + " " + spaces + argument) == Call(name, argument)
  {
    var command := name + " " + spaces + argument;
    assert command == name + " " + (spaces + argument);
    FindAfter(name, spaces + argument);
    assert command[..|name|] == name;
    var ws := " " + spaces;
    assert command[|name|..] == ws + argument;
    TrimNoOp(name);
    TrimStartSkipsWhitespace(ws, argument);
    assert TrimStart(argument) == argument;
    TrimNoOp(argument);
  }

  /** The first space of `name + " " + rest` is the one after `name`. */
  lemma FindAfter(name: string, rest: string)
    requires ' ' !in name
    ensures Find(name + " " + rest, ' ') == Some(|name|)
  {
    var s := name + " " + rest;
    assert s[|name|] == ' ';
    assert s[..|name|] == name;
    assert ' ' in s;
  }

  /** `process_comman`: the line printed for a command. */
  function ProcessCommand(command: string): (line: string)
    ensures SplitCommand(command).name == "echo" ==> line == SplitCommand(command).argument
    ensures SplitCommand(command).name != "echo" ==> line == command + ": command not found"
  {
    var call := SplitCommand(command);
    if call.name == "echo" then call.argument else command + ": command not found"
  }

  /** One turn of the loop on a line as read: `None` when it is `exit` (after
      trimming) and the loop ends, otherwise the line printed. */
  function Turn(userInput: string): (r: Option<string>)
    ensures r.None? <==> Trim(userInput) == "exit"
    ensures r.Some? ==> r.value == ProcessCommand(Trim(userInput))
  {
    var trimmed := Trim(userInput);
    if trimmed == "exit" then None else Some(ProcessCommand(trimmed))
  }

  /** `echo` prints its argument as typed once trimmed; with no argument it prints an
      empty line. */
  lemma EchoPrintsArgument(argument: string)
    requires argument == [] || (!IsWhitespace(argument[0]) && !IsWhitespace(argument[|argument| - 1]))
    ensures Turn("echo " + argument) == Some(argument)
  {
    var line := "echo " + argument;
    if argument == [] {
      assert TrimStart(line) == line;
      assert TrimEnd(line) == TrimEnd("echo") by { assert line[..|line| - 1] == "echo"; }
      TrimNoOp("echo");
      assert Trim(line) == "echo";
      assert ' ' !in "echo";
    } else {
      assert line == "echo" + " " + argument;
      assert !IsWhitespace(line[0]) && !IsWhitespace(line[|line| - 1]);
      TrimNoOp(line);
      SplitCommandRoundTrip("echo", argument);
    }
  }

  /** A single word other than `echo` and `exit` is reported as not found. */
  lemma UnknownCommand(name: string)
    requires name != [] && ' ' !in name && name != "echo" && name != "exit"
    requires !IsWhitespace(name[0]) && !IsWhitespace(name[|name| - 1])
    ensures Turn(name) == Some(name + ": command not found")
  {
    TrimNoOp(name);
  }
}
