/** The line editor of src/kernel/shell.cpp: key events, the command buffer and the screen. */
module LineEditor {
  import opened Machine
  import opened ScreenLog
  import Console

  const BUFFER_SIZE := 256
  const PROMPT: seq<byte> := [110, 117, 116, 115, 104, 101, 108, 108, 62, 32]  // "nutshell> "
  /** The prompt in letters. */
  lemma PromptReads()
    ensures |PROMPT| == 10 && forall i :: 0 <= i < 10 ==> PROMPT[i] == "nutshell> "[i] as int
  {
  }

  const RUB_OUT: seq<byte> := [BACKSPACE, SPACE, BACKSPACE]

  datatype Event = Event(scancode: byte, shift: bool, capsLock: bool, enter: bool, backspace: bool)

  datatype Action = Erase | Commit | Type(c: byte) | Ignore

  /** The scancode table of src/kernel/keyboard.cpp; 0 for keys without a character. */
  function Unshifted(scancode: byte): (c: byte)
    ensures c != BACKSPACE && c != NEWLINE
  {
    match scancode
    case 2 => 49 case 3 => 50 case 4 => 51 case 5 => 52 case 6 => 53 case 7 => 54
    case 8 => 55 case 9 => 56 case 10 => 57 case 11 => 48 case 12 => 45 case 13 => 61
    case 16 => 113 case 17 => 119 case 18 => 101 case 19 => 114 case 20 => 116 case 21 => 121
    case 22 => 117 case 23 => 105 case 24 => 111 case 25 => 112 case 26 => 91 case 27 => 93
    case 30 => 97 case 31 => 115 case 32 => 100 case 33 => 102 case 34 => 103 case 35 => 104
    case 36 => 106 case 37 => 107 case 38 => 108 case 39 => 59 case 40 => 39 case 41 => 96
    case 43 => 92 case 44 => 122 case 45 => 120 case 46 => 99 case 47 => 118 case 48 => 98
    case 49 => 110 case 50 => 109 case 51 => 44 case 52 => 46 case 53 => 47
    case 55 => 42 case 57 => 32
    case _ => 0
  }

  /** `kb_to_ascii`: letters are raised by shift or caps lock. */
  function Ascii(ke: Event): (c: byte)
    ensures c != BACKSPACE && c != NEWLINE
  {
    var c := Unshifted(ke.scancode);
    if (ke.shift || ke.capsLock) && 97 <= c <= 122 then c - 32 else c
  }

  /** The keys from scancode `first` on carry the characters of `row`. */
  ghost predicate KeyRow(first: byte, row: string) {
    forall i :: 0 <= i < |row| && first + i < 0x100 ==> Unshifted(first + i) == row[i] as int
  }

  /** What is printed on the keys; no other key has a character. */
  lemma KeyboardLayout(scancode: byte)
    ensures KeyRow(2, "1234567890-=") && KeyRow(16, "qwertyuiop[]") && KeyRow(30, "asdfghjkl;'`")
    ensures KeyRow(43, "\\zxcvbnm,./") && KeyRow(55, "*") && KeyRow(57, " ")
    ensures Unshifted(scancode) != 0 <==>
            || 2 <= scancode < 14 || 16 <= scancode < 28 || 30 <= scancode < 42 || 43 <= scancode < 54
            || scancode == 55 || scancode == 57
  {
    DigitKeys();
    TopKeys();
    HomeKeys();
    BottomKeys();
    hide KeyRow;
  }

  lemma DigitKeys()
    ensures KeyRow(2, "1234567890-=")
  {
  }

  lemma TopKeys()
    ensures KeyRow(16, "qwertyuiop[]")
  {
  }

  lemma HomeKeys()
    ensures KeyRow(30, "asdfghjkl;'`")
  {
  }

  lemma BottomKeys()
    ensures KeyRow(43, "\\zxcvbnm,./") && KeyRow(55, "*") && KeyRow(57, " ")
  {
  }

  /** Shift and caps lock, alone or together, raise letters and nothing else. */
  lemma CaseIff(ke: Event)
    ensures 65 <= Ascii(ke) <= 90 <==> (ke.shift || ke.capsLock) && 97 <= Unshifted(ke.scancode) <= 122
    ensures Ascii(ke) == Unshifted(ke.scancode) || Ascii(ke) == Unshifted(ke.scancode) - 32
    ensures 97 <= Ascii(ke) <= 122 ==> !ke.shift && !ke.capsLock
    ensures Ascii(ke) != Unshifted(ke.scancode) ==> 65 <= Ascii(ke) <= 90
  {
    KeyboardLayout(ke.scancode);
  }

  /** The branch `shell_handle_key` takes. The first two tests read the scancode as if it were
      an ASCII code. */
  function Classify(ke: Event): Action {
    if ke.scancode == 8 || ke.scancode == 127 then Erase
    else if ke.scancode == 10 || ke.scancode == 13 || ke.enter then Commit
    else if ke.backspace then Erase
    else
      var c := Ascii(ke);
      if c != 0 then Type(c) else Ignore
  }

  /** Reading scancodes as ASCII takes three characters away: '7', '9' and '=' cannot be typed,
      whatever the modifiers, though each has a key of its own. */
  lemma UntypableCharacters(ke: Event)
    ensures Classify(ke) !in {Type(55), Type(57), Type(61)}
    ensures ke.scancode == 8 ==> Unshifted(ke.scancode) == 55 && Classify(ke) == Erase
    ensures ke.scancode == 10 ==> Unshifted(ke.scancode) == 57 && Classify(ke) == Commit
    ensures ke.scancode == 13 ==> Unshifted(ke.scancode) == 61 && Classify(ke) == Commit
  {
    assert Unshifted(ke.scancode) == 55 ==> ke.scancode == 8;
    assert Unshifted(ke.scancode) == 57 ==> ke.scancode == 10;
    assert Unshifted(ke.scancode) == 61 ==> ke.scancode == 13;
  }

  /** A key with a character types it exactly when its scancode is not taken for a control character;
      127 has no key with a character. */
  lemma TypableIff(ke: Event)
    requires Ascii(ke) != 0 && !ke.enter && !ke.backspace
    ensures Classify(ke) == Type(Ascii(ke)) <==> ke.scancode !in {8, 10, 13}
  {
    assert Unshifted(127) == 0;
  }

  /** The line being typed, as the user understands it. */
  function Edited(text: seq<byte>, a: Action): seq<byte> {
    match a
    case Erase => if text == [] then [] else text[..|text| - 1]
    case Type(c) => if |text| < BUFFER_SIZE - 1 then text + [c] else text
    case Commit => []
    case Ignore => text
  }

  function EditedAll(text: seq<byte>, events: seq<Event>): seq<byte> {
    if events == [] then text
    else Edited(EditedAll(text, events[..|events| - 1]), Classify(events[|events| - 1]))
  }

  /** The lines handed to the command interpreter. */
  function Committed(text: seq<byte>, events: seq<Event>): seq<seq<byte>> {
    if events == [] then []
    else
      var before := events[..|events| - 1];
      Committed(text, before)
      + if Classify(events[|events| - 1]) == Commit then [EditedAll(text, before)] else []
  }

  // ---------------------------------------------------------------- typing a line

  /** A key that types a character. */
  predicate Types(ke: Event) {
    Ascii(ke) != 0 && !ke.enter && !ke.backspace && ke.scancode !in {8, 10, 13}
  }

  /** The characters of the keys, in order. */
  function Typed(events: seq<Event>): seq<byte> {
    seq(|events|, i requires 0 <= i < |events| => Ascii(events[i]))
  }

  /** Keys that type, as long as the buffer has room, append what is on them and hand nothing over. */
  lemma {:induction false} TypingAppends(text: seq<byte>, events: seq<Event>)
    requires |text| + |events| <= 255 && forall i :: 0 <= i < |events| ==> Types(events[i])
    ensures EditedAll(text, events) == text + Typed(events) && Committed(text, events) == []
  {
    if events != [] {
      var before, ke := events[..|events| - 1], events[|events| - 1];
      TypingAppends(text, before);
      assert Types(ke);
      TypableIff(ke);
      assert text + Typed(events) == text + Typed(before) + [Ascii(ke)];
    } else {
      assert text + Typed(events) == text;
    }
  }

  /** A line typed and entered is handed over as it was typed, and the buffer is empty again. */
  lemma TypedLineIsHandedOver(events: seq<Event>, enter: Event)
    requires |events| <= 255 && (forall i :: 0 <= i < |events| ==> Types(events[i]))
    requires enter.enter && enter.scancode !in {8, 127}
    ensures Committed([], events + [enter]) == [Typed(events)] && EditedAll([], events + [enter]) == []
  {
    TypingAppends([], events);
    OneMore([], events, enter);
    assert Classify(enter) == Commit;
    assert [] + Typed(events) == Typed(events);
  }

  lemma OneMore(text: seq<byte>, events: seq<Event>, ke: Event)
    ensures EditedAll(text, events + [ke]) == Edited(EditedAll(text, events), Classify(ke))
    ensures Committed(text, events + [ke]) ==
            Committed(text, events) + if Classify(ke) == Commit then [EditedAll(text, events)] else []
  {
    hide Classify, Edited;
    assert (events + [ke])[..|events|] == events;
  }

  /** The backspace key undoes the last key that typed. */
  lemma BackspaceUndoesTyping(text: seq<byte>, ke: Event, back: Event)
    requires |text| < 255 && Types(ke)
    requires back.scancode in {8, 127} || (back.backspace && !back.enter && back.scancode !in {10, 13})
    ensures EditedAll(text, [ke, back]) == text && Committed(text, [ke, back]) == []
  {
    TypingAppends(text, [ke]);
    assert [ke, back][..1] == [ke];
    assert text + Typed([ke]) == text + [Ascii(ke)];
  }

  /** What an action prints while `text` is being typed; `response` is the output of the command. */
  function Echo(text: seq<byte>, a: Action, response: seq<byte>): seq<byte> {
    match a
    case Erase => if text == [] then [] else RUB_OUT
    case Type(c) => if |text| < BUFFER_SIZE - 1 then [c] else []
    case Commit => [NEWLINE] + response + PROMPT
    case Ignore => []
  }

  /** What a session prints. */
  function EchoAll(text: seq<byte>, events: seq<Event>, responses: seq<seq<byte>>): seq<byte>
    requires |responses| == |events|
  {
    if events == [] then []
    else
      var n := |events| - 1;
      EchoAll(text, events[..n], responses[..n])
      + Echo(EditedAll(text, events[..n]), Classify(events[n]), responses[n])
  }

  /** The cells end with the prompt. */
  ghost predicate Prompted(base: seq<Cell>) {
    && |base| >= |PROMPT|
    && forall i :: 0 <= i < |PROMPT| ==> CharOf(base[|base| - |PROMPT| + i]) == PROMPT[i]
  }

  /** Whatever was printed before it, the prompt stands right before the cursor. */
  lemma PromptStands(l: Log, s: seq<byte>, color: byte)
    requires l.Valid()
    ensures var r := PutAll(l, s + PROMPT, color); r.Valid() && Prompted(r.cells[..r.pos])
  {
    hide PutAll, Put;
    HistoryIsFinal(l, s, color);
    PutAllConcat(l, s, PROMPT, color);
    VisibleTextStands(PutAll(l, s, color), PROMPT, color);
  }

  /** From the end of `base` on the log spells `text`, the cursor is right behind it, everything after
      is blank, and everything before is `base`. */
  ghost predicate Spells(l: Log, base: seq<Cell>, text: seq<byte>) {
    && l.Valid()
    && l.Top() <= |base|
    && l.pos == |base| + |text|
    && base <= l.cells
    && (forall i :: 0 <= i < |text| ==> CharOf(l.cells[|base| + i]) == text[i])
    && BlankTail(l)
  }

  /** Backspace, space, backspace: one cell back, blanked, with no scrolling on the way, unless the
      cursor is at the top left of the screen. */
  lemma RubOutSteps(l: Log, color: byte)
    requires l.Valid() && l.pos > l.Top()
    ensures PutAll(l, RUB_OUT, color) == Log(l.cells[l.pos - 1 := Entry(SPACE, color)], l.pos - 1)
  {
    var l1 := Put(l, BACKSPACE, color);
    var l2 := Put(l1, SPACE, color);
    var l3 := Put(l2, BACKSPACE, color);
    PutKeepsHistory(l, BACKSPACE, color);
    PutKeepsHistory(l1, SPACE, color);
    assert RUB_OUT[1..] == [SPACE, BACKSPACE] && [SPACE, BACKSPACE][1..] == [BACKSPACE] && [BACKSPACE][1..] == [];
    assert PutAll(l3, [], color) == l3;
    assert PutAll(l2, [BACKSPACE], color) == l3;
    assert PutAll(l1, [SPACE, BACKSPACE], color) == l3;
    assert l3.cells == l.cells[l.pos - 1 := Entry(SPACE, color)];
  }

  lemma EraseSpells(l: Log, base: seq<Cell>, text: seq<byte>, color: byte)
    requires Spells(l, base, text) && text != []
    ensures Spells(PutAll(l, RUB_OUT, color), base, text[..|text| - 1])
  {
    RubOutSteps(l, color);
    CharOfEntry(SPACE, color);
  }

  /** At most 255 characters after the prompt: a scroll leaves their start on screen. */
  lemma TypeSpells(l: Log, base: seq<Cell>, text: seq<byte>, c: byte, color: byte)
    requires Spells(l, base, text) && |text| < BUFFER_SIZE - 1
    requires c != BACKSPACE && c != NEWLINE
    ensures Spells(Put(l, c, color), base, text + [c])
  {
    PutKeepsHistory(l, c, color);
    CharOfEntry(c, color);
    CharOfEntry(SPACE, color);
  }

  lemma EchoGrows(l: Log, text: seq<byte>, events: seq<Event>, responses: seq<seq<byte>>, i: nat, color: byte)
    requires l.Valid() && i < |events| == |responses|
    ensures events[..i + 1][..i] == events[..i]
    ensures var s := EchoAll(text, events[..i], responses[..i]);
      && PutAll(l, s, color).Valid()
      && PutAll(l, EchoAll(text, events[..i + 1], responses[..i + 1]), color) ==
         PutAll(PutAll(l, s, color), Echo(EditedAll(text, events[..i]), Classify(events[i]), responses[i]), color)
  {
    assert events[..i + 1][..i] == events[..i] && responses[..i + 1][..i] == responses[..i];
    PutAllConcat(l, EchoAll(text, events[..i], responses[..i]),
                 Echo(EditedAll(text, events[..i]), Classify(events[i]), responses[i]), color);
  }

  lemma NothingEchoed(l: Log, text: seq<byte>, color: byte)
    requires l.Valid()
    ensures EchoAll(text, [], []) == [] && PutAll(l, [], color) == l
  {
  }

  lemma OnePut(l: Log, c: byte, color: byte)
    requires l.Valid()
    ensures PutAll(l, [c], color) == Put(l, c, color)
  {
    PutKeepsHistory(l, c, color);
    assert [c][1..] == [];
    assert PutAll(Put(l, c, color), [], color) == Put(l, c, color);
  }

  class InputLine {
    const term: Console.Terminal
    const buffer: array<byte>
    var index: nat
    var inputEnabled: bool
    /** The log up to the end of the current prompt. */
    ghost var base: seq<Cell>

    function Text(): seq<byte>
      requires index <= buffer.Length
      reads this, buffer
    {
      buffer[..index]
    }

    ghost predicate Valid()
      reads this, buffer, term, term.buffer
    {
      && buffer.Length == BUFFER_SIZE && index < BUFFER_SIZE
      && (buffer as object) != term.buffer
      && term.Valid()
      && Spells(term.log, base, Text()) && Prompted(base)
      && 0 !in Text()
    }

    /** `shell_init` on a console whose cells behind the cursor are blank. */
    constructor (term: Console.Terminal, welcome: seq<byte>)
      requires term.Valid() && BlankTail(term.log)
      modifies term, term.buffer
      ensures Valid() && this.term == term && Text() == [] && inputEnabled && fresh(buffer)
      ensures term.log == PutAll(old(term.log), welcome + PROMPT, term.color)
    {
      this.term := term;
      buffer := new byte[BUFFER_SIZE];
      index := 0;
      inputEnabled := true;
      new;
      ghost var l := term.log;
      term.WriteString(welcome + PROMPT);
      PutAllKeepsBlankTail(l, welcome + PROMPT, term.color);
      PromptStands(l, welcome, term.color);
      base := term.log.cells[..term.log.pos];
    }

    method RubOut()
      requires Valid() && index > 0
      modifies this, term, term.buffer
      ensures Valid() && Text() == old(Text())[..|old(Text())| - 1]
      ensures term.log == PutAll(old(term.log), RUB_OUT, term.color) && term.color == old(term.color)
      ensures base == old(base) && inputEnabled == old(inputEnabled)
    {
      ghost var text := Text();
      EraseSpells(term.log, base, text, term.color);
      index := index - 1;
      term.WriteString(RUB_OUT);
      assert Text() == text[..|text| - 1];
    }

    method Accept(c: byte)
      requires Valid() && c != 0 && c != BACKSPACE && c != NEWLINE
      modifies this, buffer, term, term.buffer
      ensures Valid() && Text() == Edited(old(Text()), Type(c))
      ensures term.log == PutAll(old(term.log), Echo(old(Text()), Type(c), []), term.color)
      ensures term.color == old(term.color)
      ensures base == old(base) && inputEnabled == old(inputEnabled)
    {
      if index < BUFFER_SIZE - 1 {
        ghost var text := Text();
        TypeSpells(term.log, base, text, c, term.color);
        buffer[index] := c;
        index := index + 1;
        OnePut(term.log, c, term.color);
        term.PutChar(c);
        assert Text() == text + [c];
      }
    }

    /** The enter branch; `response` is whatever running the command prints. */
    method Enter(response: seq<byte>) returns (line: seq<byte>)
      requires Valid()
      modifies this, buffer, term, term.buffer
      ensures Valid() && Text() == [] && line == old(Text())
      ensures term.log == PutAll(old(term.log), [NEWLINE] + response + PROMPT, term.color)
      ensures term.color == old(term.color)
      ensures base == term.log.cells[..term.log.pos] && inputEnabled == old(inputEnabled)
    {
      buffer[index] := 0;
      line := buffer[..index];
      ghost var l := term.log;
      term.WriteString([NEWLINE] + response + PROMPT);
      PutAllKeepsBlankTail(l, [NEWLINE] + response + PROMPT, term.color);
      PromptStands(l, [NEWLINE] + response, term.color);
      index := 0;
      base := term.log.cells[..term.log.pos];
    }

    /** `shell_handle_key`. Scancodes 8 and 127, and the backspace key unless the event commits, take the
        last character away; the enter key and scancodes 10 and 13 hand the line over; any other key types
        its character, if it has one and there is room. */
    method HandleKey(ke: Event, response: seq<byte>) returns (lines: seq<seq<byte>>)
      requires Valid()
      modifies this, buffer, term, term.buffer
      ensures Valid() && inputEnabled == old(inputEnabled)
      ensures Text() == if inputEnabled then Edited(old(Text()), Classify(ke)) else old(Text())
      ensures lines == if inputEnabled && Classify(ke) == Commit then [old(Text())] else []
      ensures term.log == if inputEnabled
                          then PutAll(old(term.log), Echo(old(Text()), Classify(ke), response), term.color)
                          else old(term.log)
      ensures term.color == old(term.color)
      ensures base == if inputEnabled && Classify(ke) == Commit then term.log.cells[..term.log.pos] else old(base)
      ensures !inputEnabled ==> Text() == old(Text()) && lines == [] && term.log == old(term.log)
      ensures var commits := ke.scancode !in {8, 127} && (ke.enter || ke.scancode in {10, 13});
        var rubs := ke.scancode in {8, 127} || (ke.backspace && !commits);
        var text := old(Text());
        inputEnabled ==>
          && (commits ==> lines == [text] && Text() == [] &&
                          term.log == PutAll(old(term.log), [10] + response + PROMPT, term.color))
          && (!commits ==> lines == [] && base == old(base))
          && (rubs ==> Text() == if text == [] then [] else text[..|text| - 1])
          && (!commits && !rubs ==> Text() == if Ascii(ke) != 0 && |text| < 255 then text + [Ascii(ke)] else text)
    {
      lines := [];
      if !inputEnabled { return; }
      if ke.scancode == 8 || ke.scancode == 127 {
        if index > 0 { RubOut(); }
        return;
      }
      if ke.scancode == 10 || ke.scancode == 13 || ke.enter {
        var line := Enter(response);
        return [line];
      }
      if ke.backspace {
        if index > 0 { RubOut(); }
        return;
      }
      var c := Ascii(ke);
      if c != 0 {
        Accept(c);
      }
    }

    /** Every session: the buffer is the edited line, the log spells it right behind a prompt (`Valid`),
        what is printed is the echo of every event, and the lines handed over are the edited ones. */
    method Session(events: seq<Event>, responses: seq<seq<byte>>) returns (lines: seq<seq<byte>>)
      requires Valid() && inputEnabled && |responses| == |events|
      modifies this, buffer, term, term.buffer
      ensures Valid() && Text() == EditedAll(old(Text()), events)
      ensures lines == Committed(old(Text()), events)
      ensures term.log == PutAll(old(term.log), EchoAll(old(Text()), events, responses), term.color)
      ensures (forall i :: 0 <= i < |events| ==> Classify(events[i]) != Commit) ==> base == old(base)
    {
      hide Classify, Ascii, PutAll, Put, EchoAll, Echo, Edited, Spells, Prompted;
      ghost var l, text := term.log, Text();
      NothingEchoed(l, text, term.color);
      assert events[..0] == [] && responses[..0] == [];
      lines := [];
      for i := 0 to |events|
        invariant Valid() && inputEnabled
        invariant Text() == EditedAll(old(Text()), events[..i]) && term.color == old(term.color)
        invariant term.log == PutAll(l, EchoAll(text, events[..i], responses[..i]), term.color)
        invariant lines == Committed(old(Text()), events[..i])
        invariant (forall j :: 0 <= j < i ==> Classify(events[j]) != Commit) ==> base == old(base)
      {
        EchoGrows(l, text, events, responses, i, term.color);
        OneMore(text, events[..i], events[i]);
        assert events[..i + 1] == events[..i] + [events[i]];
        var more := HandleKey(events[i], responses[i]);
        lines := lines + more;
      }
      assert events[..|events|] == events && responses[..|events|] == responses;
    }
  }
}
