/** The interactive line editor (src/shell/input.rs): key events update a buffer and
    a cursor until Enter or Ctrl+J submits the line. The terminal is abstract: each
    redraw is recorded as the text shown after the prompt and the cursor's column. */
module LineEditor {
  import opened Wrappers
  import opened Strings

  datatype KeyCode = Char(c: char) | Left | Right | Backspace | Tab | Enter | OtherKey
  datatype KeyEventKind = Press | Repeat | Release

  /** A terminal event: a key with its kind and whether Control was held, or any
      other event (mouse, resize, focus, paste). */
  datatype Event = Key(code: KeyCode, kind: KeyEventKind, control: bool) | NonKey

  const Prompt := "$ "
  const Bell := '\U{7}'

  /** The text typed so far and the cursor's position in it, in characters. */
  datatype Editor = Editor(buffer: string, cursor: nat)

  const Empty := Editor([], 0)

  predicate Valid(e: Editor) {
    e.cursor <= |e.buffer|
  }

  /** One redraw of the line: the text printed after the prompt, and the column the
      terminal cursor is moved to. */
  datatype Redraw = Redraw(text: string, column: nat)

  /** `redraw_line`: the cursor goes to the column just after the prompt plus the
      logical cursor. */
  function RedrawLine(input: string, cursorPos: nat): (r: Redraw)
    ensures r.text == input
    ensures r.column - |Prompt| == cursorPos
  {
    Redraw(input, |Prompt| + cursorPos)
  }

  /** `String::insert`: `c` placed before position `i`. */
  function InsertAt(s: string, i: nat, c: char): (r: string)
    requires i <= |s|
    ensures |r| == |s| + 1
    ensures forall j :: 0 <= j < i ==> r[j] == s[j]
    ensures r[i] == c
    ensures forall j :: i < j < |r| ==> r[j] == s[j - 1]
  {
    s[..i] + [c] + s[i..]
  }

  /** `String::remove`: the character at position `i` taken out. */
  function RemoveAt(s: string, i: nat): (r: string)
    requires i < |s|
    ensures |r| == |s| - 1
    ensures forall j :: 0 <= j < i ==> r[j] == s[j]
    ensures forall j :: i <= j < |r| ==> r[j] == s[j + 1]
  {
    s[..i] + s[i + 1..]
  }

  /** Removing what was just inserted gives the text back. */
  lemma RemoveUndoesInsert(s: string, i: nat, c: char)
    requires i <= |s|
    ensures RemoveAt(InsertAt(s, i, c), i) == s
  {
    var r := RemoveAt(InsertAt(s, i, c), i);
    assert forall j :: 0 <= j < |s| ==> r[j] == s[j];
  }

  /** The index of the first known command that starts with `prefix`. */
  function FirstMatch(known: seq<string>, prefix: string): (r: Option<nat>)
    ensures r.None? ==> forall k :: 0 <= k < |known| ==> !IsPrefix(prefix, known[k])
    ensures r.Some? ==> r.value < |known| && IsPrefix(prefix, known[r.value])
    ensures r.Some? ==> forall k :: 0 <= k < r.value ==> !IsPrefix(prefix, known[k])
  {
    if known == [] then None
    else if IsPrefix(prefix, known[0]) then Some(0)
    else match FirstMatch(known[1..], prefix)
      case None => None
      case Some(k) => Some(k + 1)
  }

  /** The result of one event: the loop either goes on with a new editor state and
      possibly a redraw, or submits the line. */
  datatype Outcome = Continue(editor: Editor, redraw: Option<Redraw>) | Submit

  /** The loop body for one event. */
  function Step(e: Editor, ev: Event, known: seq<string>): (r: Outcome)
    requires Valid(e)
    ensures r.Continue? ==> Valid(r.editor)
    ensures r.Continue? && r.redraw.Some? ==> r.redraw.value.column <= |Prompt| + |r.redraw.value.text|
  {
    if !ev.Key? || ev.kind != Press then Continue(e, None)
    else match ev.code
      case Char(c) =>
        if c == 'j' && ev.control then Submit
        else
          var b := InsertAt(e.buffer, e.cursor, c);
          Continue(Editor(b, e.cursor + 1), Some(RedrawLine(b, e.cursor + 1)))
      case Left =>
        var p := if e.cursor > 0 then e.cursor - 1 else e.cursor;
        Continue(Editor(e.buffer, p), Some(RedrawLine(e.buffer, p)))
      case Right =>
        var p := if e.cursor < |e.buffer| then e.cursor + 1 else e.cursor;
        Continue(Editor(e.buffer, p), Some(RedrawLine(e.buffer, p)))
      case Backspace =>
        if e.cursor > 0 then
          var b := RemoveAt(e.buffer, e.cursor - 1);
          Continue(Editor(b, e.cursor - 1), Some(RedrawLine(b, e.cursor - 1)))
        else Continue(e, None)
      case Tab =>
        (match FirstMatch(known, e.buffer)
         case Some(k) =>
           var b := known[k] + " ";
           Continue(Editor(b, |b|), Some(RedrawLine(b, |b|)))
         case None =>
           Continue(e, Some(RedrawLine(e.buffer + [Bell], e.cursor))))
      case Enter => Submit
      case OtherKey => Continue(e, None)
  }

  /** What the loop ends with after reading `events` from state `e`: the final state,
      the redraws in order, and whether the line was submitted (otherwise the events
      ran out first). */
  datatype Session = Session(editor: Editor, redraws: seq<Redraw>, submitted: bool)

  function Run(e: Editor, events: seq<Event>, known: seq<string>): (r: Session)
    requires Valid(e)
    ensures Valid(r.editor)
    decreases |events|
  {
    if events == [] then Session(e, [], false)
    else match Step(e, events[0], known)
      case Submit => Session(e, [], true)
      case Continue(e', redraw) =>
        var rest := Run(e', events[1..], known);
        Session(rest.editor, OptionToSeq(redraw) + rest.redraws, rest.submitted)
  }

  /** `rs` drawn before the session `s`. */
  function Prepend(rs: seq<Redraw>, s: Session): Session {
    Session(s.editor, rs + s.redraws, s.submitted)
  }

  /** One turn of the loop: the session from event `i` on is the outcome of that
      event followed by the session from event `i + 1` on. */
  lemma RunAt(e: Editor, events: seq<Event>, i: nat, known: seq<string>)
    requires Valid(e) && i < |events|
    ensures Step(e, events[i], known).Submit? ==> Run(e, events[i..], known) == Session(e, [], true)
    ensures Step(e, events[i], known).Continue? ==>
      var o := Step(e, events[i], known);
      Run(e, events[i..], known) == Prepend(OptionToSeq(o.redraw), Run(o.editor, events[i + 1..], known))
  {
    assert events[i..][0] == events[i];
    assert events[i..][1..] == events[i + 1..];
  }

  /** The body of the event loop for one event, on the loop's variables: the new
      text, cursor and redraw, or `submit` when the line is done. */
  method HandleEvent(userInput: string, cursorPos: nat, event: Event, knowCommands: seq<string>)
    returns (newInput: string, newPos: nat, drawn: Option<Redraw>, submit: bool)
    requires cursorPos <= |userInput|
    ensures submit <==> Step(Editor(userInput, cursorPos), event, knowCommands).Submit?
    ensures !submit ==>
      Step(Editor(userInput, cursorPos), event, knowCommands) == Continue(Editor(newInput, newPos), drawn)
  {
    newInput, newPos, drawn, submit := userInput, cursorPos, None, false;
    if event.Key? && event.kind == Press {
      match event.code {
        case Char(c) =>
          if c == 'j' && event.control {
            submit := true;
          } else {
            newInput := InsertAt(userInput, cursorPos, c);
            newPos := cursorPos + 1;
            drawn := Some(RedrawLine(newInput, newPos));
          }
        case Left =>
          if cursorPos > 0 {
            newPos := cursorPos - 1;
          }
          drawn := Some(RedrawLine(newInput, newPos));
        case Right =>
          if cursorPos < |userInput| {
            newPos := cursorPos + 1;
          }
          drawn := Some(RedrawLine(newInput, newPos));
        case Backspace =>
          if cursorPos > 0 {
            newPos := cursorPos - 1;
            newInput := RemoveAt(userInput, newPos);
            drawn := Some(RedrawLine(newInput, newPos));
          }
        case Tab =>
          var foundCommand := FirstMatch(knowCommands, userInput);
          if foundCommand.Some? {
            newInput := knowCommands[foundCommand.value] + " ";
            newPos := |newInput|;
            drawn := Some(RedrawLine(newInput, newPos));
          } else {
            drawn := Some(RedrawLine(userInput + [Bell], cursorPos));
          }
        case Enter =>
          submit := true;
        case OtherKey =>
      }
    }
  }

  /** The loop's account of the session after one more event: with `rs` drawn so
      far, a submitted line ends the session where it is, and any other outcome
      moves the drawn redraws and the editor forward by one event. */
  lemma LoopStep(rs: seq<Redraw>, e: Editor, events: seq<Event>, i: nat, known: seq<string>)
    requires Valid(e) && i < |events|
    ensures Step(e, events[i], known).Submit? ==>
      Prepend(rs, Run(e, events[i..], known)) == Session(e, rs, true)
    ensures Step(e, events[i], known).Continue? ==>
      var o := Step(e, events[i], known);
      Prepend(rs, Run(e, events[i..], known)) ==
        Prepend(rs + OptionToSeq(o.redraw), Run(o.editor, events[i + 1..], known))
  {
    RunAt(e, events, i, known);
    assert rs + [] == rs;
  }

  /** `retrieve_user_input`: the event loop over a given sequence of events. Returns
      the typed line, whether it was submitted, and the redraws made. */
  method RetrieveUserInput(knowCommands: seq<string>, events: seq<Event>)
    returns (userInput: string, submitted: bool, redraws: seq<Redraw>)
    ensures var s := Run(Empty, events, knowCommands);
      userInput == s.editor.buffer && submitted == s.submitted && redraws == s.redraws
  {
    userInput := [];
    var cursorPos: nat := 0;
    redraws := [];
    submitted := false;
    var i := 0;
    while i < |events| && !submitted
      invariant 0 <= i <= |events|
      invariant cursorPos <= |userInput|
      invariant !submitted ==>
        Run(Empty, events, knowCommands) == Prepend(redraws, Run(Editor(userInput, cursorPos), events[i..], knowCommands))
      invariant submitted ==>
        Run(Empty, events, knowCommands) == Session(Editor(userInput, cursorPos), redraws, true)
      decreases |events| - i, !submitted
    {
      var newInput, newPos, drawn, submit := HandleEvent(userInput, cursorPos, events[i], knowCommands);
      LoopStep(redraws, Editor(userInput, cursorPos), events, i, knowCommands);
      if submit {
        submitted := true;
      } else {
        userInput, cursorPos := newInput, newPos;
        redraws := redraws + OptionToSeq(drawn);
        i := i + 1;
      }
    }
    if !submitted {
      assert events[i..] == [];
      assert redraws + [] == redraws;
    }
  }

  // ---------------------------------------------------------------------------
  // Properties of the key handlers

  /** A printable key (anything but Ctrl+J) inserts its character at the cursor and
      moves the cursor past it. */
  lemma CharInsertsAtCursor(e: Editor, c: char, control: bool, known: seq<string>)
    requires Valid(e) && !(c == 'j' && control)
    ensures var r := Step(e, Key(Char(c), Press, control), known);
      r.Continue? && r.editor.cursor == e.cursor + 1 &&
      r.editor.buffer[..e.cursor] == e.buffer[..e.cursor] &&
      r.editor.buffer[e.cursor] == c &&
      r.editor.buffer[e.cursor + 1..] == e.buffer[e.cursor..]
  {
    var b := Step(e, Key(Char(c), Press, control), known).editor.buffer;
    assert b == e.buffer[..e.cursor] + [c] + e.buffer[e.cursor..];
  }

  /** Left and Right move the cursor by one within the text and never change it. */
  lemma ArrowsClamp(e: Editor, known: seq<string>, control: bool)
    requires Valid(e)
    ensures var l := Step(e, Key(Left, Press, control), known);
      l.Continue? && l.editor.buffer == e.buffer &&
      l.editor.cursor == if e.cursor > 0 then e.cursor - 1 else 0
    ensures var r := Step(e, Key(Right, Press, control), known);
      r.Continue? && r.editor.buffer == e.buffer &&
      r.editor.cursor == if e.cursor < |e.buffer| then e.cursor + 1 else |e.buffer|
  {
  }

  /** Backspace removes the character before the cursor; at the start of the line it
      does nothing and draws nothing. */
  lemma BackspaceDeletesBeforeCursor(e: Editor, known: seq<string>, control: bool)
    requires Valid(e)
    ensures var r := Step(e, Key(Backspace, Press, control), known);
      r.Continue? &&
      (e.cursor == 0 ==> r == Continue(e, None)) &&
      (e.cursor > 0 ==> r.editor.cursor == e.cursor - 1 &&
                        r.editor.buffer == e.buffer[..e.cursor - 1] + e.buffer[e.cursor..])
  {
  }

  /** Typing a character and deleting it with Backspace restores the editor. */
  lemma BackspaceUndoesChar(e: Editor, c: char, known: seq<string>)
    requires Valid(e)
    ensures var r := Step(e, Key(Char(c), Press, false), known);
      r.Continue? && Step(r.editor, Key(Backspace, Press, false), known).editor == e
  {
    RemoveUndoesInsert(e.buffer, e.cursor, c);
  }

  /** Tab completes to the first known command that starts with the text, followed by
      a space, cursor at the end; with no such command the line is unchanged and the
      bell is rung. */
  lemma TabCompletesFirstMatch(e: Editor, known: seq<string>, control: bool)
    requires Valid(e)
    ensures var r := Step(e, Key(Tab, Press, control), known);
      r.Continue? &&
      ((exists k :: 0 <= k < |known| && IsPrefix(e.buffer, known[k])) ==>
        exists k :: 0 <= k < |known| && IsPrefix(e.buffer, known[k]) &&
          (forall j :: 0 <= j < k ==> !IsPrefix(e.buffer, known[j])) &&
          r.editor == Editor(known[k] + " ", |known[k]| + 1)) &&
      ((forall k :: 0 <= k < |known| ==> !IsPrefix(e.buffer, known[k])) ==>
        r.editor == e && r.redraw == Some(Redraw(e.buffer + [Bell], |Prompt| + e.cursor)))
  {
  }

  /** Enter, and Ctrl+J (which a raw terminal reports for a line feed), submit the
      line as it is; Ctrl+J does not insert a `j`. */
  lemma SubmitKeys(e: Editor, rest: seq<Event>, known: seq<string>, control: bool)
    requires Valid(e)
    ensures Run(e, [Key(Enter, Press, control)] + rest, known) == Session(e, [], true)
    ensures Run(e, [Key(Char('j'), Press, true)] + rest, known) == Session(e, [], true)
  {
    assert ([Key(Enter, Press, control)] + rest)[0] == Key(Enter, Press, control);
    assert ([Key(Char('j'), Press, true)] + rest)[0] == Key(Char('j'), Press, true);
  }

  /** Events other than key presses, and keys without a handler, change nothing. */
  lemma IgnoredEvents(e: Editor, ev: Event, known: seq<string>)
    requires Valid(e)
    requires !ev.Key? || ev.kind != Press || ev.code == OtherKey
    ensures Step(e, ev, known) == Continue(e, None)
  {
  }

  /** Every redraw of a session puts the terminal cursor inside the prompt and the
      shown text. */
  lemma {:induction false} RedrawsInsideLine(e: Editor, events: seq<Event>, known: seq<string>)
    requires Valid(e)
    ensures forall k :: 0 <= k < |Run(e, events, known).redraws| ==>
      |Prompt| <= Run(e, events, known).redraws[k].column <= |Prompt| + |Run(e, events, known).redraws[k].text|
    decreases |events|
  {
    if events != [] {
      match Step(e, events[0], known)
      case Submit =>
      case Continue(e', redraw) =>
        RedrawsInsideLine(e', events[1..], known);
    }
  }

  // ---------------------------------------------------------------------------
  // The cursor as the source keeps it: a count of characters used as a byte index

  /** The number of bytes `c` occupies in UTF-8. */
  function Utf8Width(c: char): (n: nat)
    ensures 1 <= n <= 4
  {
    if c as int < 0x80 then 1
    else if c as int < 0x800 then 2
    else if c as int < 0x10000 then 3
    else 4
  }

  /** The length of `s` in UTF-8 bytes: `String::len`. */
  function ByteLength(s: string): (n: nat)
    ensures n >= |s|
  {
    if s == [] then 0 else Utf8Width(s[0]) + ByteLength(s[1..])
  }

  /** The character position that starts at byte offset `bytePos`, if any: `None`
      exactly when `bytePos` is not a character boundary of `s`
      (`str::is_char_boundary`). */
  function CharAtByte(s: string, bytePos: nat): (r: Option<nat>)
    ensures r.Some? ==> r.value <= |s| && ByteLength(s[..r.value]) == bytePos
    ensures r.None? ==> forall k :: 0 <= k <= |s| ==> ByteLength(s[..k]) != bytePos
  {
    if bytePos == 0 then
      assert ByteLength(s[..0]) == 0;
      Some(0)
    else if s == [] then None
    else if bytePos < Utf8Width(s[0]) then
      assert forall k :: 1 <= k <= |s| ==> ByteLength(s[..k]) >= Utf8Width(s[0]) by {
        forall k | 1 <= k <= |s| ensures ByteLength(s[..k]) >= Utf8Width(s[0]) {
          assert s[..k][0] == s[0];
        }
      }
      None
    else
      var rest := CharAtByte(s[1..], bytePos - Utf8Width(s[0]));
      PrefixByteLength(s);
      if rest.None? then None else Some(rest.value + 1)
  }

  /** Dropping the first character of a prefix drops its width. */
  lemma PrefixByteLength(s: string)
    requires s != []
    ensures forall k :: 1 <= k <= |s| ==> ByteLength(s[..k]) == Utf8Width(s[0]) + ByteLength(s[1..][..k - 1])
  {
    forall k | 1 <= k <= |s| ensures ByteLength(s[..k]) == Utf8Width(s[0]) + ByteLength(s[1..][..k - 1]) {
      assert s[..k][0] == s[0];
      assert s[..k][1..] == s[1..][..k - 1];
    }
  }

  /** The key handler for a printed character as the source writes it: the cursor is
      a byte offset into the UTF-8 text and advances by one. `String::insert` panics
      (here: `None`) when the offset is not a character boundary. */
  function ByteCursorInsert(buffer: string, bytePos: nat, c: char): (r: Option<(string, nat)>)
    ensures r.None? <==> CharAtByte(buffer, bytePos).None?
    ensures r.Some? ==> r.value.1 == bytePos + 1 && |r.value.0| == |buffer| + 1
  {
    match CharAtByte(buffer, bytePos)
    case None => None
    case Some(k) => Some((InsertAt(buffer, k, c), bytePos + 1))
  }

  /** Typing `é` and then `a` makes the source's line editor panic: after `é` the
      cursor is 1, which falls inside the two bytes of `é`. */
  lemma ByteCursorPanicsAfterMultiByteChar()
    ensures ByteCursorInsert([], 0, '\U{E9}') == Some((['\U{E9}'], 1))
    ensures ByteCursorInsert(['\U{E9}'], 1, 'a') == None
  {
    assert InsertAt([], 0, '\U{E9}') == ['\U{E9}'];
    assert Utf8Width('\U{E9}') == 2;
  }

  /** The Right key as the source writes it: the cursor may advance up to
      `String::len`, the length in bytes. */
  function ByteCursorRight(buffer: string, bytePos: nat): (r: nat)
    ensures bytePos < ByteLength(buffer) ==> r == bytePos + 1
    ensures bytePos >= ByteLength(buffer) ==> r == bytePos
  {
    if bytePos < ByteLength(buffer) then bytePos + 1 else bytePos
  }

  /** Backspace as the source writes it: the cursor steps back one and
      `String::remove` takes it as a byte offset. `remove` panics (here: `None`)
      when the offset is not a character boundary or is the end of the text. */
  function ByteCursorBackspace(buffer: string, bytePos: nat): (r: Option<(string, nat)>)
    ensures bytePos == 0 ==> r == Some((buffer, 0))
    ensures bytePos > 0 && r.None? <==>
      bytePos > 0 && (CharAtByte(buffer, bytePos - 1).None? || CharAtByte(buffer, bytePos - 1).value == |buffer|)
    ensures r.Some? && bytePos > 0 ==> r.value.1 == bytePos - 1 && |r.value.0| == |buffer| - 1
  {
    if bytePos == 0 then Some((buffer, 0))
    else match CharAtByte(buffer, bytePos - 1)
      case None => None
      case Some(k) => if k < |buffer| then Some((RemoveAt(buffer, k), bytePos - 1)) else None
  }

  /** Typing `é`, then Right, then Backspace also makes the source's editor panic:
      Right moves the cursor from 1 to 2 because `é` is two bytes long, and
      Backspace then removes at byte 1, inside `é`. */
  lemma ByteCursorBackspacePanicsAfterMultiByteChar()
    ensures ByteCursorInsert([], 0, '\U{E9}') == Some((['\U{E9}'], 1))
    ensures ByteCursorRight(['\U{E9}'], 1) == 2
    ensures ByteCursorBackspace(['\U{E9}'], 2) == None
  {
    assert InsertAt([], 0, '\U{E9}') == ['\U{E9}'];
    assert Utf8Width('\U{E9}') == 2;
    assert ByteLength(['\U{E9}']) == 2;
  }

  /** In the character-indexed editor that the rest of this model uses, typing any
      characters from the empty line never fails: the line holds them in order and
      the cursor stands after the last one. */
  lemma {:induction false} TypingNeverFails(typed: string, known: seq<string>)
    ensures Run(Empty, Keys(typed), known) ==
      Session(Editor(typed, |typed|), Redraws(typed), false)
    decreases |typed|
  {
    if typed != [] {
      TypingAfter([], typed, known);
    }
  }

  /** Key presses for each character of `s`, without Control. */
  function Keys(s: string): (r: seq<Event>)
    ensures |r| == |s|
  {
    if s == [] then [] else [Key(Char(s[0]), Press, false)] + Keys(s[1..])
  }

  /** The redraws typing `s` from an empty line produces. */
  function Redraws(s: string): seq<Redraw> {
    RedrawsAfter([], s)
  }

  function RedrawsAfter(before: string, s: string): seq<Redraw>
    decreases |s|
  {
    if s == [] then []
    else [RedrawLine(before + [s[0]], |before| + 1)] + RedrawsAfter(before + [s[0]], s[1..])
  }

  lemma {:induction false} TypingAfter(before: string, typed: string, known: seq<string>)
    ensures Run(Editor(before, |before|), Keys(typed), known) ==
      Session(Editor(before + typed, |before| + |typed|), RedrawsAfter(before, typed), false)
    decreases |typed|
  {
    if typed == [] {
      assert before + typed == before;
    } else {
      var e := Editor(before, |before|);
      var ks := Keys(typed);
      var b := before + [typed[0]];
      assert ks[0] == Key(Char(typed[0]), Press, false);
      assert ks[1..] == Keys(typed[1..]);
      TypeAtEnd(before, typed[0], known);
      RunAt(e, ks, 0, known);
      assert ks[0..] == ks;
      TypingAfter(b, typed[1..], known);
      assert b + typed[1..] == before + typed;
    }
  }

  /** A character typed with the cursor at the end of the line is appended to it. */
  lemma TypeAtEnd(before: string, c: char, known: seq<string>)
    ensures Step(Editor(before, |before|), Key(Char(c), Press, false), known) ==
      Continue(Editor(before + [c], |before| + 1), Some(RedrawLine(before + [c], |before| + 1)))
  {
    assert InsertAt(before, |before|, c) == before + [c];
  }
}
