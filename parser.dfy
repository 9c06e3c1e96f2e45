/** The argument tokenizer (src/parser.rs): a five-state machine that reads one
    command's text character by character and collects the decoded arguments. */
module Parser {
  import opened Strings

  /** The tokenizer's states: outside quotes (`None`), inside single or double
      quotes, and just after a backslash outside or inside double quotes. */
  datatype ParserState = None | SingleQuote | DoubleQuote | Escape | EscapeInDoubleQuote

  /** Everything the loop keeps between characters. */
  datatype Machine = Machine(state: ParserState, current: string, arguments: seq<string>)

  const Start := Machine(None, [], [])

  /** One character of input. */
  function Step(m: Machine, c: char): Machine {
    match m.state
    case None =>
      if c == '\'' then m.(state := SingleQuote)
      else if c == '"' then m.(state := DoubleQuote)
      else if c == '\\' then m.(state := Escape)
      else if c == ' ' then
        if m.current != [] then Machine(None, [], m.arguments + [m.current]) else m
      else m.(current := m.current + [c])
    case DoubleQuote =>
      if c == '"' then m.(state := None)
      else if c == '\\' then m.(state := EscapeInDoubleQuote)
      else m.(current := m.current + [c])
    case SingleQuote =>
      if c == '\'' then m.(state := None)
      else m.(current := m.current + [c])
    case Escape =>
      Machine(None, m.current + [c], m.arguments)
    case EscapeInDoubleQuote =>
      if c == '"' || c == '\\' then Machine(DoubleQuote, m.current + [c], m.arguments)
      else Machine(DoubleQuote, m.current + ['\\', c], m.arguments)
  }

  /** The machine after reading all of `s`, starting from `m`. */
  function RunFrom(m: Machine, s: string): Machine
    decreases |s|
  {
    if s == [] then m else Step(RunFrom(m, s[..|s| - 1]), s[|s| - 1])
  }

  /** End of input: a pending argument is emitted, whatever the state. */
  function Finish(m: Machine): seq<string> {
    if m.current != [] then m.arguments + [m.current] else m.arguments
  }

  /** What `parse_input` returns for `s`. */
  function Tokenize(s: string): seq<string> {
    Finish(RunFrom(Start, s))
  }

  /** `parse_input`: the loop over the characters, updating the state, the argument
      being built and the list of finished arguments. */
  method ParseInput(argument: string) returns (arguments: seq<string>)
    ensures arguments == Tokenize(argument)
    ensures forall k :: 0 <= k < |arguments| ==> arguments[k] != []
  {
    arguments := [];
    var currentArgument: string := [];
    var currentParser := None;
    for i := 0 to |argument|
      invariant RunFrom(Start, argument[..i]) == Machine(currentParser, currentArgument, arguments)
    {
      var character := argument[i];
      assert argument[..i + 1][..i] == argument[..i];
      match currentParser {
        case None =>
          if character == '\'' {
            currentParser := SingleQuote;
          } else if character == '"' {
            currentParser := DoubleQuote;
          } else if character == '\\' {
            currentParser := Escape;
          } else if character == ' ' {
            if currentArgument != [] {
              arguments := arguments + [currentArgument];
              currentArgument := [];
            }
          } else {
            currentArgument := currentArgument + [character];
          }
        case DoubleQuote =>
          if character == '"' {
            currentParser := None;
          } else if character == '\\' {
            currentParser := EscapeInDoubleQuote;
          } else {
            currentArgument := currentArgument + [character];
          }
        case SingleQuote =>
          if character == '\'' {
            currentParser := None;
          } else {
            currentArgument := currentArgument + [character];
          }
        case Escape =>
          currentArgument := currentArgument + [character];
          currentParser := None;
        case EscapeInDoubleQuote =>
          if character == '"' || character == '\\' {
            currentArgument := currentArgument + [character];
          } else {
            currentArgument := currentArgument + ['\\', character];
          }
          currentParser := DoubleQuote;
      }
    }
    assert argument[..|argument|] == argument;
    if currentArgument != [] {
      arguments := arguments + [currentArgument];
    }
    NoEmptyArguments(argument);
  }

  // ---------------------------------------------------------------------------
  // Properties of the machine

  lemma RunSnoc(m: Machine, s: string, c: char)
    ensures RunFrom(m, s + [c]) == Step(RunFrom(m, s), c)
  {
    assert (s + [c])[..|s|] == s;
  }

  /** Reading `s` then `t` is reading `s + t`. */
  lemma {:induction false} RunAppend(m: Machine, s: string, t: string)
    ensures RunFrom(m, s + t) == RunFrom(RunFrom(m, s), t)
    decreases |t|
  {
    if t == [] {
      assert s + t == s;
    } else {
      assert (s + t)[..|s + t| - 1] == s + t[..|t| - 1];
      RunAppend(m, s, t[..|t| - 1]);
    }
  }

  /** No finished argument is ever empty. */
  predicate NoEmpty(args: seq<string>) {
    forall k :: 0 <= k < |args| ==> args[k] != []
  }

  lemma {:induction false} RunKeepsNoEmpty(s: string)
    ensures NoEmpty(RunFrom(Start, s).arguments)
    decreases |s|
  {
    if s != [] {
      RunKeepsNoEmpty(s[..|s| - 1]);
    }
  }

  /** The tokenizer never produces an empty argument. */
  lemma NoEmptyArguments(s: string)
    ensures NoEmpty(Tokenize(s))
  {
    RunKeepsNoEmpty(s);
  }

  /** Inside single quotes every character up to the closing quote is taken
      literally, backslashes and double quotes included. */
  lemma {:induction false} SingleQuotedLiteral(cur: string, args: seq<string>, t: string)
    requires '\'' !in t
    ensures RunFrom(Machine(SingleQuote, cur, args), t) == Machine(SingleQuote, cur + t, args)
    decreases |t|
  {
    if t != [] {
      var t' := t[..|t| - 1];
      assert '\'' !in t' by { assert forall x :: x in t' ==> x in t; }
      SingleQuotedLiteral(cur, args, t');
      assert cur + t' + [t[|t| - 1]] == cur + t;
    } else {
      assert cur + t == cur;
    }
  }

  /** Inside double quotes, text without `"` or `\` is taken literally. */
  lemma {:induction false} DoubleQuotedLiteral(cur: string, args: seq<string>, t: string)
    requires '"' !in t && '\\' !in t
    ensures RunFrom(Machine(DoubleQuote, cur, args), t) == Machine(DoubleQuote, cur + t, args)
    decreases |t|
  {
    if t != [] {
      var t' := t[..|t| - 1];
      assert '"' !in t' && '\\' !in t' by { assert forall x :: x in t' ==> x in t; }
      DoubleQuotedLiteral(cur, args, t');
      assert cur + t' + [t[|t| - 1]] == cur + t;
    } else {
      assert cur + t == cur;
    }
  }

  /** A single-quoted region adds exactly its inside to the current argument: the two
      quote characters are consumed and the state returns to unquoted. */
  lemma SingleQuotedRegion(cur: string, args: seq<string>, t: string)
    requires '\'' !in t
    ensures RunFrom(Machine(None, cur, args), ['\''] + t + ['\'']) == Machine(None, cur + t, args)
  {
    RunAppend(Machine(None, cur, args), ['\''] + t, ['\'']);
    RunAppend(Machine(None, cur, args), ['\''], t);
    assert RunFrom(Machine(None, cur, args), ['\'']) == Machine(SingleQuote, cur, args) by {
      assert ['\''][..0] == [];
    }
    SingleQuotedLiteral(cur, args, t);
    assert ['\''][..0] == [];
  }

  /** A double-quoted region without escapes adds exactly its inside. */
  lemma DoubleQuotedRegion(cur: string, args: seq<string>, t: string)
    requires '"' !in t && '\\' !in t
    ensures RunFrom(Machine(None, cur, args), ['"'] + t + ['"']) == Machine(None, cur + t, args)
  {
    RunAppend(Machine(None, cur, args), ['"'] + t, ['"']);
    RunAppend(Machine(None, cur, args), ['"'], t);
    assert ['"'][..0] == [];
    DoubleQuotedLiteral(cur, args, t);
  }

  /** An unquoted backslash appends the next character, whatever it is, and returns
      to the unquoted state. */
  lemma EscapeUnquoted(cur: string, args: seq<string>, c: char)
    ensures RunFrom(Machine(None, cur, args), ['\\', c]) == Machine(None, cur + [c], args)
  {
    RunSnoc(Machine(None, cur, args), [], '\\');
    RunSnoc(Machine(None, cur, args), ['\\'], c);
    assert [] + ['\\'] == ['\\'] && ['\\'] + [c] == ['\\', c];
  }

  /** Inside double quotes, `\"` gives `"` and `\\` gives `\`; before any other
      character the backslash is kept together with that character. */
  lemma EscapeInDoubleQuotes(cur: string, args: seq<string>, c: char)
    ensures RunFrom(Machine(DoubleQuote, cur, args), ['\\', c]) ==
      Machine(DoubleQuote, cur + (if c == '"' || c == '\\' then [c] else ['\\', c]), args)
  {
    RunSnoc(Machine(DoubleQuote, cur, args), [], '\\');
    RunSnoc(Machine(DoubleQuote, cur, args), ['\\'], c);
    assert [] + ['\\'] == ['\\'] && ['\\'] + [c] == ['\\', c];
  }

  /** Outside quotes, spaces end the current argument, and further spaces add nothing. */
  lemma {:induction false} SpacesSeparate(cur: string, args: seq<string>, spaces: string)
    requires |spaces| >= 1
    requires forall i :: 0 <= i < |spaces| ==> spaces[i] == ' '
    ensures RunFrom(Machine(None, cur, args), spaces) ==
      Machine(None, [], if cur != [] then args + [cur] else args)
    decreases |spaces|
  {
    if |spaces| > 1 {
      SpacesSeparate(cur, args, spaces[..|spaces| - 1]);
    } else {
      assert spaces[..0] == [];
    }
  }

  /** At end of input, what was collected inside an unterminated single quote is still
      emitted as the last argument. */
  lemma UnterminatedQuote(s: string, t: string)
    requires RunFrom(Start, s).state == None
    requires '\'' !in t && t != []
    ensures Tokenize(s + ['\''] + t) ==
      RunFrom(Start, s).arguments + [RunFrom(Start, s).current + t]
  {
    var m := RunFrom(Start, s);
    RunAppend(Start, s, ['\''] + t);
    assert s + ['\''] + t == s + (['\''] + t);
    RunAppend(m, ['\''], t);
    assert ['\''][..0] == [];
    SingleQuotedLiteral(m.current, m.arguments, t);
  }

  /** The same holds for an unterminated double quote: the text after it (here
      without escapes) is emitted as the last argument. */
  lemma UnterminatedDoubleQuote(s: string, t: string)
    requires RunFrom(Start, s).state == None
    requires '"' !in t && '\\' !in t && t != []
    ensures Tokenize(s + ['"'] + t) ==
      RunFrom(Start, s).arguments + [RunFrom(Start, s).current + t]
  {
    var m := RunFrom(Start, s);
    RunAppend(Start, s, ['"'] + t);
    assert s + ['"'] + t == s + (['"'] + t);
    RunAppend(m, ['"'], t);
    assert ['"'][..0] == [];
    DoubleQuotedLiteral(m.current, m.arguments, t);
  }

  /** A lone backslash at the very end of the input contributes nothing. */
  lemma TrailingBackslash(s: string)
    requires RunFrom(Start, s).state == None
    ensures Tokenize(s + ['\\']) == Tokenize(s)
  {
    var t := s + ['\\'];
    assert t[..|t| - 1] == s && t[|t| - 1] == '\\';
    var m := RunFrom(Start, s);
    assert RunFrom(Start, t) == Step(m, '\\') == m.(state := Escape);
  }

  /** Text with no quote or backslash characters. */
  predicate NoQuoting(s: string) {
    forall i :: 0 <= i < |s| ==> s[i] != '\'' && s[i] != '"' && s[i] != '\\'
  }

  lemma {:induction false} PlainRun(s: string)
    requires NoQuoting(s)
    ensures var p := Split(s, ' ');
      RunFrom(Start, s) == Machine(None, p[|p| - 1], NonEmpty(p[..|p| - 1]))
    decreases |s|
  {
    if s != [] {
      var s', c := s[..|s| - 1], s[|s| - 1];
      assert s == s' + [c];
      PlainRun(s');
      var p', p := Split(s', ' '), Split(s, ' ');
      var last', init' := p'[|p'| - 1], p'[..|p'| - 1];
      if c == ' ' {
        SplitSnocSeparator(s', ' ');
        assert p[..|p| - 1] == p';
        assert p' == init' + [last'];
        NonEmptyAppend(init', [last']);
      } else {
        SplitSnocOther(s', c, ' ');
        assert p[..|p| - 1] == init';
      }
    }
  }

  /** Without quotes or backslashes, tokenizing is splitting on `' '` (and on nothing
      else: a tab is an ordinary character) and dropping the empty pieces. */
  lemma PlainTokenize(s: string)
    requires NoQuoting(s)
    ensures Tokenize(s) == NonEmpty(Split(s, ' '))
  {
    PlainRun(s);
    var p := Split(s, ' ');
    assert p == p[..|p| - 1] + [p[|p| - 1]];
    NonEmptyAppend(p[..|p| - 1], [p[|p| - 1]]);
  }

  /** Reading `echo ` leaves the finished argument `echo` and nothing pending. */
  lemma EchoPrefix()
    ensures RunFrom(Start, "echo ") == Machine(None, [], ["echo"])
  {
    PlainRun("echo ");
    assert "echo " == "echo" + [' '] + "";
    SplitAtSeparator("echo", "", ' ');
    var p := Split("echo ", ' ');
    assert p == ["echo", ""];
    assert p[..|p| - 1] == ["echo"];
    assert ["echo"][1..] == [];
    assert NonEmpty(["echo"]) == ["echo"];
  }

  /** `echo 'hello   world'` gives two arguments, the spaces inside the quotes kept. */
  lemma ExampleSingleQuotes()
    ensures Tokenize("echo 'hello   world'") == ["echo", "hello   world"]
  {
    var quoted := ['\''] + "hello   world" + ['\''];
    assert "echo 'hello   world'" == "echo " + quoted;
    EchoPrefix();
    RunAppend(Start, "echo ", quoted);
    SingleQuotedRegion([], ["echo"], "hello   world");
    assert [] + "hello   world" == "hello   world";
  }

  /** `"a\"b"` read from the unquoted state adds `a"b` to the current argument. */
  lemma EscapedQuoteRun(args: seq<string>)
    ensures RunFrom(Machine(None, [], args), "\"a\\\"b\"") == Machine(None, "a\"b", args)
  {
    var m := Machine(None, [], args);
    var t1 := ['"'] + "a";
    var t2 := t1 + ['\\', '"'];
    var t3 := t2 + "b";
    assert RunFrom(m, t1) == Machine(DoubleQuote, "a", args) by {
      RunAppend(m, ['"'], "a");
      RunSnoc(m, [], '"');
      assert [] + ['"'] == ['"'];
      DoubleQuotedLiteral([], args, "a");
    }
    assert RunFrom(m, t2) == Machine(DoubleQuote, "a\"", args) by {
      RunAppend(m, t1, ['\\', '"']);
      EscapeInDoubleQuotes("a", args, '"');
      assert "a" + ['"'] == "a\"";
    }
    assert RunFrom(m, t3) == Machine(DoubleQuote, "a\"b", args) by {
      RunAppend(m, t2, "b");
      DoubleQuotedLiteral("a\"", args, "b");
      assert "a\"" + "b" == "a\"b";
    }
    RunSnoc(m, t3, '"');
    assert "\"a\\\"b\"" == t3 + ['"'];
  }

  /** `echo "a\"b"` gives the arguments `echo` and `a"b`. */
  lemma ExampleEscapedQuote()
    ensures Tokenize("echo \"a\\\"b\"") == ["echo", "a\"b"]
  {
    assert "echo \"a\\\"b\"" == "echo " + "\"a\\\"b\"";
    EchoPrefix();
    RunAppend(Start, "echo ", "\"a\\\"b\"");
    EscapedQuoteRun(["echo"]);
  }
}
