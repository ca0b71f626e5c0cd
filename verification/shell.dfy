/** The shell: a line editor over the console. Its edit buffer and the row on the screen stay in step. */
module Shells {
  import opened Prelude
  import opened Pixels
  import opened Drawing
  import opened Consoles
  import N = Numbers
  import T = Terminal

  const MAX_LINE := 256
  const PROMPT: string := "r-os> "
  const DELETE: char := '\U{7f}'
  const RUBOUT: string := [T.BACKSPACE, ' ', T.BACKSPACE]
  const HEAP_SIZE := 8 * 1024 * 1024

  /** is_ascii() && !is_ascii_control() */
  predicate Printable(c: char) {
    ' ' <= c <= '~'
  }

  predicate AllPrintable(s: string) {
    forall i :: 0 <= i < |s| ==> Printable(s[i])
  }

  // ---------------------------------------------------------------------------
  // Commands
  // ---------------------------------------------------------------------------

  function TrimStart(s: string): (t: string)
    ensures |t| <= |s| && t == s[|s| - |t|..]
    ensures t != [] ==> t[0] != ' '
  {
    if s != [] && s[0] == ' ' then TrimStart(s[1..]) else s
  }

  function TrimEnd(s: string): (t: string)
    ensures |t| <= |s| && t == s[..|t|]
    ensures t != [] ==> t[|t| - 1] != ' '
  {
    if s != [] && s[|s| - 1] == ' ' then TrimEnd(s[..|s| - 1]) else s
  }

  function Trim(s: string): string {
    TrimEnd(TrimStart(s))
  }

  /** Position of the first space, or |s|. */
  function FirstSpace(s: string): (k: nat)
    ensures k <= |s| && ' ' !in s[..k] && (k < |s| ==> s[k] == ' ')
  {
    if s == [] || s[0] == ' ' then 0 else 1 + FirstSpace(s[1..])
  }

  function Ascii(s: seq<Byte>): string {
    seq(|s|, i requires 0 <= i < |s| => s[i] as char)
  }

  const HELP_1: string := "Available commands:\n"
  const HELP_2: string := "  help  - Show this help\n"
  const HELP_3: string := "  echo  - Print arguments\n"
  const HELP_4: string := "  clear - Clear screen\n"
  const HELP_5: string := "  meminfo - Heap info\n"
  const HELP_6: string := "  halt  - Halt CPU\n"

  function HelpText(): string {
    HELP_1 + HELP_2 + HELP_3 + HELP_4 + HELP_5 + HELP_6
  }

  function MeminfoText(): string {
    "Heap: 0x4444_4444_0000\n" + "Size: " + Ascii(N.Decimal(HEAP_SIZE / 1024)) + " KiB\n"
  }

  datatype Reply = Say(text: string) | ClearScreen | Halt

  /** The first word of a command line and the rest of it, both trimmed. */
  function Words(line: string): (string, string) {
    var cmd := Trim(line);
    var k := FirstSpace(cmd);
    (cmd[..k], if k < |cmd| then Trim(cmd[k + 1..]) else "")
  }

  /** What a command does; `halt` never returns. */
  function ReplyTo(line: string): Reply {
    var (command, args) := Words(line);
    if command == "help" then Say(HelpText())
    else if command == "echo" then Say(args + "\n")
    else if command == "clear" then ClearScreen
    else if command == "meminfo" then Say(MeminfoText())
    else if command == "halt" then Halt
    else Say("Unknown command: '" + command + "'\n")
  }

  /** Which command does what, by its first word. */
  lemma WhatCommandsDo(line: string)
    ensures ReplyTo(line).Halt? <==> Words(line).0 == "halt"
    ensures ReplyTo(line).ClearScreen? <==> Words(line).0 == "clear"
    ensures Words(line).0 == "echo" ==> ReplyTo(line) == Say(Words(line).1 + "\n")
    ensures Words(line).0 == "help" ==>
              ReplyTo(line) == Say("Available commands:\n" + "  help  - Show this help\n" + "  echo  - Print arguments\n"
                                   + "  clear - Clear screen\n" + "  meminfo - Heap info\n" + "  halt  - Halt CPU\n")
    ensures Words(line).0 == "meminfo" ==> ReplyTo(line) == Say("Heap: 0x4444_4444_0000\nSize: 8192 KiB\n")
    ensures Words(line).0 !in {"help", "echo", "clear", "meminfo", "halt"} ==>
              ReplyTo(line) == Say("Unknown command: '" + Words(line).0 + "'\n")
  {
    hide Words;
    hide MeminfoText;
    FiveCommands();
    MeminfoIs();
  }

  lemma FiveCommands()
    ensures "help" != "echo" && "help" != "clear" && "help" != "meminfo" && "help" != "halt"
    ensures "echo" != "clear" && "echo" != "meminfo" && "echo" != "halt"
    ensures "clear" != "meminfo" && "clear" != "halt" && "meminfo" != "halt"
  {
    assert "help"[0] != "echo"[0] && "help"[1] != "halt"[1];
  }

  lemma MeminfoIs()
    ensures MeminfoText() == "Heap: 0x4444_4444_0000\nSize: 8192 KiB\n"
  {
    assert N.Decimal(8) == [56];
    assert N.Decimal(81) == [56, 49];
    assert N.Decimal(819) == [56, 49, 57];
    assert N.Decimal(8192) == [56, 49, 57, 50];
    assert Ascii(N.Decimal(HEAP_SIZE / 1024)) == "8192";
  }

  function Spaces(n: nat): (s: string)
    ensures |s| == n && forall i :: 0 <= i < n ==> s[i] == ' '
  {
    seq(n, _ => ' ')
  }

  /** Neither empty at an end nor starting or ending with a space. */
  predicate Trimmed(s: string) {
    s != [] ==> s[0] != ' ' && s[|s| - 1] != ' '
  }

  lemma {:induction false} TrimStartDrops(n: nat, s: string)
    requires s == [] || s[0] != ' '
    ensures TrimStart(Spaces(n) + s) == s
    decreases n
  {
    if n == 0 {
      assert Spaces(0) + s == s;
    } else {
      assert (Spaces(n) + s)[1..] == Spaces(n - 1) + s;
      TrimStartDrops(n - 1, s);
    }
  }

  lemma {:induction false} TrimEndDrops(s: string, n: nat)
    requires s == [] || s[|s| - 1] != ' '
    ensures TrimEnd(s + Spaces(n)) == s
    decreases n
  {
    hide TrimEnd;
    if n == 0 {
      TrimEndKeeps(s);
      assert s + Spaces(0) == s;
    } else {
      TrimEndDrops(s, n - 1);
      TrimEndOne(s + Spaces(n - 1));
      assert Spaces(n) == Spaces(n - 1) + [' '];
      assert s + Spaces(n) == s + Spaces(n - 1) + [' '];
    }
  }

  lemma TrimEndKeeps(s: string)
    requires s == [] || s[|s| - 1] != ' '
    ensures TrimEnd(s) == s
  {
  }

  lemma TrimEndOne(s: string)
    ensures TrimEnd(s + [' ']) == TrimEnd(s)
  {
    assert (s + [' '])[..|s|] == s;
  }

  /** Trimming takes exactly the padding off. */
  lemma TrimPadded(before: nat, s: string, after: nat)
    requires Trimmed(s)
    ensures Trim(Spaces(before) + s + Spaces(after)) == s
  {
    if s == [] {
      assert Spaces(before) + s + Spaces(after) == Spaces(before + after) + [];
      TrimStartDrops(before + after, []);
    } else {
      assert Spaces(before) + s + Spaces(after) == Spaces(before) + (s + Spaces(after));
      TrimStartDrops(before, s + Spaces(after));
      TrimEndDrops(s, after);
    }
  }

  lemma {:induction false} FirstSpaceIs(w: string, rest: string)
    requires ' ' !in w && (rest != [] ==> rest[0] == ' ')
    ensures FirstSpace(w + rest) == |w|
    decreases |w|
  {
    if w != [] {
      assert (w + rest)[1..] == w[1..] + rest;
      FirstSpaceIs(w[1..], rest);
    } else {
      assert w + rest == rest;
    }
  }

  /** A command and its arguments, with any padding, are read as that command and those arguments. */
  lemma WordsOf(before: nat, w: string, between: nat, args: string, after: nat)
    requires w != [] && ' ' !in w && args != [] && Trimmed(args)
    ensures Words(Spaces(before) + w + [' '] + Spaces(between) + args + Spaces(after)) == (w, args)
    ensures Words(Spaces(before) + w + Spaces(after)) == (w, "")
  {
    hide Trim;
    hide FirstSpace;
    hide Spaces;
    var rest := [' '] + Spaces(between) + args;
    var cmd := w + rest;
    assert Spaces(before) + w + [' '] + Spaces(between) + args + Spaces(after) == Spaces(before) + cmd + Spaces(after) by {
      hide *;
    }
    TrimPadded(before, cmd, after);
    FirstSpaceIs(w, rest);
    assert cmd[..|w|] == w && cmd[|w| + 1..] == Spaces(between) + args;
    ArgsTrimmed(between, args);
    WordAlone(before, w, after);
  }

  lemma ArgsTrimmed(between: nat, args: string)
    requires Trimmed(args)
    ensures Trim(Spaces(between) + args) == args
  {
    TrimPadded(between, args, 0);
    assert Spaces(between) + args + Spaces(0) == Spaces(between) + args;
  }

  lemma WordAlone(before: nat, w: string, after: nat)
    requires ' ' !in w
    ensures Words(Spaces(before) + w + Spaces(after)) == (w, "")
  {
    hide Trim;
    hide FirstSpace;
    TrimPadded(before, w, after);
    FirstSpaceIs(w, []);
    assert w + [] == w && w[..|w|] == w;
  }

  /** A line of spaces has the empty command. */
  lemma WordsOfNothing(n: nat)
    ensures Words(Spaces(n)) == ("", "")
  {
    WordAlone(n, "", 0);
    assert Spaces(n) + "" + Spaces(0) == Spaces(n);
  }

  /** echo replies exactly its arguments, without the padding. */
  lemma EchoEchoes(before: nat, between: nat, args: string, after: nat)
    requires args != [] && Trimmed(args)
    ensures ReplyTo(Spaces(before) + "echo" + [' '] + Spaces(between) + args + Spaces(after)) == Say(args + "\n")
  {
    WordsOf(before, "echo", between, args, after);
    WhatCommandsDo(Spaces(before) + "echo" + [' '] + Spaces(between) + args + Spaces(after));
    hide *;
  }

  function ReplyOps(r: Reply): seq<T.Op> {
    match r
    case Say(text) => T.Puts(text)
    case ClearScreen => [T.Clear]
    case Halt => []
  }

  /** A text that ends its last line and never writes '\r'. */
  predicate WholeLines(text: string) {
    text != [] && text[|text| - 1] == T.NEWLINE && T.RETURN !in text
  }

  /** Every command that returns leaves the console at column 0 and never writes '\r'. */
  lemma CommandsEndTheLine(line: string, s: T.Screen)
    requires s.Valid() && AllPrintable(line)
    ensures ReplyTo(line).Halt? || T.Play(s, ReplyOps(ReplyTo(line))).col == 0
    ensures T.Put(T.RETURN) !in ReplyOps(ReplyTo(line))
  {
    hide ReplyTo;
    hide AllPrintable;
    RepliesAreWholeLines(line);
    if !ReplyTo(line).Halt? {
      T.LineEnds(s, ReplyOps(ReplyTo(line)));
    }
  }

  lemma RepliesAreWholeLines(line: string)
    requires AllPrintable(line)
    ensures ReplyTo(line).Say? ==> WholeLines(ReplyTo(line).text)
  {
    hide *;
    WordsPrintable(line);
    FixedTexts();
    EchoLine(Words(line).1);
    UnknownLine(Words(line).0);
    ReplyCases(line);
  }

  lemma EchoLine(args: string)
    requires AllPrintable(args)
    ensures WholeLines(args + "\n")
  {
  }

  lemma UnknownLine(command: string)
    requires AllPrintable(command)
    ensures WholeLines("Unknown command: '" + command + "'\n")
  {
  }

  lemma ReplyCases(line: string)
    ensures ReplyTo(line).Say? ==>
      ReplyTo(line).text in [HelpText(), MeminfoText(), Words(line).1 + "\n", "Unknown command: '" + Words(line).0 + "'\n"]
  {
  }

  lemma EndedLine(before: string, word: string, after: string)
    requires AllPrintable(word) && WholeLines(after) && T.RETURN !in before
    ensures WholeLines(before + word + after)
  {
  }

  /** The fixed texts are whole lines. */
  lemma FixedTexts()
    ensures WholeLines(HelpText()) && WholeLines(MeminfoText())
  {
    HelpLines();
    Joined(HELP_1, HELP_2);
    Joined(HELP_1 + HELP_2, HELP_3);
    Joined(HELP_1 + HELP_2 + HELP_3, HELP_4);
    Joined(HELP_1 + HELP_2 + HELP_3 + HELP_4, HELP_5);
    Joined(HELP_1 + HELP_2 + HELP_3 + HELP_4 + HELP_5, HELP_6);
    HeapSizeText();
    hide WholeLines;
  }

  lemma HelpLines()
    ensures WholeLines(HELP_1) && WholeLines(HELP_2) && WholeLines(HELP_3)
    ensures WholeLines(HELP_4) && WholeLines(HELP_5) && WholeLines(HELP_6)
  {
    MoreHelpLines();
  }

  lemma MoreHelpLines()
    ensures WholeLines(HELP_4) && WholeLines(HELP_5) && WholeLines(HELP_6)
  {
  }

  lemma Joined(a: string, b: string)
    requires WholeLines(a) && WholeLines(b)
    ensures WholeLines(a + b)
  {
  }

  lemma HeapSizeText()
    ensures WholeLines(MeminfoText())
  {
    hide N.Decimal;
    N.DecimalIsDigits(HEAP_SIZE / 1024);
    assert AllPrintable(Ascii(N.Decimal(HEAP_SIZE / 1024)));
    EndedLine("Heap: 0x4444_4444_0000\n" + "Size: ", Ascii(N.Decimal(HEAP_SIZE / 1024)), " KiB\n");
  }

  lemma WordsPrintable(line: string)
    requires AllPrintable(line)
    ensures AllPrintable(Words(line).0) && AllPrintable(Words(line).1)
  {
    hide Trim;
    hide FirstSpace;
    var cmd := Trim(line);
    var k := FirstSpace(cmd);
    TrimPrintable(line);
    SlicePrintable(cmd, 0, k);
    if k < |cmd| {
      SlicePrintable(cmd, k + 1, |cmd|);
      TrimPrintable(cmd[k + 1..]);
    }
    hide AllPrintable;
    assert cmd[0..k] == cmd[..k] && (k < |cmd| ==> cmd[k + 1..|cmd|] == cmd[k + 1..]);
    assert AllPrintable("") by { EmptyPrintable(); }
  }

  lemma EmptyPrintable()
    ensures AllPrintable("")
  {
  }

  lemma SlicePrintable(s: string, i: nat, j: nat)
    requires AllPrintable(s) && i <= j <= |s|
    ensures AllPrintable(s[i..j])
  {
  }

  lemma TrimPrintable(s: string)
    requires AllPrintable(s)
    ensures AllPrintable(Trim(s))
  {
  }

  // ---------------------------------------------------------------------------
  // The line on the screen
  // ---------------------------------------------------------------------------

  /** The cursor row shows exactly `text`, with the cursor right behind it and blanks from there on. */
  ghost predicate LineShown(s: T.Screen, text: string) {
    && s.Valid() && !s.Degenerate() && |text| <= s.cols && s.col == |text|
    && (forall c :: 0 <= c < |text| ==> s.cells[s.row][c] == {text[c]})
    && T.BlankFromCursor(s)
  }

  lemma EmptyLineShown(s: T.Screen)
    requires s.Valid() && !s.Degenerate() && s.col == 0 && T.BlankFromCursor(s)
    ensures LineShown(s, "")
  {
  }

  lemma TypedCharShown(s: T.Screen, text: string, c: char)
    requires LineShown(s, text) && |text| < s.cols && Printable(c)
    ensures LineShown(T.Step(s, c), text + [c])
  {
  }

  lemma {:induction false} TypedTextShown(s: T.Screen, before: string, text: string)
    requires LineShown(s, before) && |before| + |text| <= s.cols && AllPrintable(text)
    ensures LineShown(T.Run(s, text), before + text)
    decreases |text|
  {
    if text == [] {
      assert before + text == before;
    } else {
      TypedCharShown(s, before, text[0]);
      assert before + [text[0]] + text[1..] == before + text;
      TypedTextShown(T.Step(s, text[0]), before + [text[0]], text[1..]);
    }
  }

  /** Backspace, space, backspace takes the last character off the line, also at the end of a full row. */
  lemma RuboutShown(s: T.Screen, text: string)
    requires LineShown(s, text) && text != []
    ensures LineShown(T.Run(s, RUBOUT), text[..|text| - 1])
  {
    var n := |text| - 1;
    var a := T.Step(s, T.BACKSPACE);
    T.StepKeepsBlank(s, T.BACKSPACE);
    assert LineShown(a, text[..n]);
    TypedCharShown(a, text[..n], ' ');
    var b := T.Step(a, ' ');
    var c := T.Step(b, T.BACKSPACE);
    T.StepKeepsBlank(b, T.BACKSPACE);
    assert LineShown(c, text[..n]);
    RunThree(s, T.BACKSPACE, ' ', T.BACKSPACE);
  }

  /** The cursor stands further left than behind `text`, so its row does not show `text`. */
  predicate Behind(s: T.Screen, text: string) {
    s.col < |text|
  }

  /** The first character past the end of the row wraps, and the cursor falls behind the line. */
  lemma OverflowFallsBehind(s: T.Screen, text: string, c: char)
    requires LineShown(s, text) && |text| == s.cols && Printable(c)
    ensures Behind(T.Step(s, c), text + [c])
  {
  }

  /** From then on no typing and no rubbing out lets it catch up. */
  lemma TypedBehind(s: T.Screen, text: string, c: char)
    requires s.Valid() && !s.Degenerate() && Behind(s, text) && Printable(c)
    ensures Behind(T.Step(s, c), text + [c])
  {
  }

  lemma RubbedOutBehind(s: T.Screen, text: string)
    requires s.Valid() && !s.Degenerate() && Behind(s, text) && |text| > |PROMPT|
    ensures Behind(T.Run(s, RUBOUT), text[..|text| - 1])
  {
    RunThree(s, T.BACKSPACE, ' ', T.BACKSPACE);
  }

  lemma RunThree(s: T.Screen, x: char, y: char, z: char)
    requires s.Valid()
    ensures T.Run(s, [x, y, z]) == T.Step(T.Step(T.Step(s, x), y), z)
  {
    var a := T.Step(s, x);
    var b := T.Step(a, y);
    hide T.Step;
    assert [x, y, z][1..] == [y, z] && [y, z][1..] == [z] && [z][1..] == [];
    assert T.Run(s, [x, y, z]) == T.Run(a, [y, z]);
    assert T.Run(a, [y, z]) == T.Run(b, [z]);
    assert T.Run(b, [z]) == T.Run(T.Step(b, z), []);
  }

  // ---------------------------------------------------------------------------
  // The shell
  // ---------------------------------------------------------------------------

  class Shell {
    const console: Console
    const buf: array<Byte>
    const info: Info
    const font: Font
    const lineBuf: array<char>
    var lineLen: nat
    /** The longest the line has been since the last prompt. */
    ghost var widest: nat

    ghost predicate Valid()
      reads this, console, lineBuf
    {
      && info.Valid() && console.Valid() && console.CursorFits(info, buf.Length)
      && T.BlankFromCursor(console.screen)
      && lineBuf.Length == MAX_LINE && lineLen <= widest <= MAX_LINE
      && AllPrintable(lineBuf[..lineLen])
    }

    /** The cursor row shows exactly the prompt followed by the line being edited if and only if prompt
        and line have fitted in one row ever since the prompt; otherwise the cursor has fallen behind. */
    ghost predicate LineMatchesScreen()
      requires Valid()
      reads this, console, lineBuf
    {
      var text := PROMPT + lineBuf[..lineLen];
      && (LineShown(console.screen, text) <==> |PROMPT| + widest <= console.cols)
      && (Behind(console.screen, text) <==> |PROMPT| + widest > console.cols)
    }

    ghost predicate OnScreen()
      requires Valid()
      reads this, console, lineBuf, buf
    {
      console.Displays(buf[..], info, font)
    }

    constructor (console: Console, buf: array<Byte>, info: Info, font: Font)
      requires info.Valid() && console.Valid() && console.CursorFits(info, buf.Length)
      requires T.BlankFromCursor(console.screen)
      ensures Valid() && this.console == console && this.buf == buf && this.info == info && this.font == font
      ensures lineLen == 0 && widest == 0 && fresh(lineBuf)
    {
      this.console, this.buf, this.info, this.font := console, buf, info, font;
      lineBuf := new char[MAX_LINE](_ => ' ');
      lineLen, widest := 0, 0;
    }

    /** console_write on the shell's own window. */
    method Write(text: string)
      requires Valid() && T.RETURN !in text && !console.cursorVisible && OnScreen()
      modifies console, buf
      ensures Valid() && !console.cursorVisible && OnScreen()
      ensures console.screen == T.Run(old(console.screen), text)
    {
      T.RunKeepsBlank(console.screen, text);
      hide T.BlankFromCursor;
      hide Shows;
      StoredNarrow(console.content, console.margin, info, buf.Length);
      console.WriteStr(buf, info, font, text);
    }

    /** The response to a command: all of it, or none for `halt`. */
    method Execute(line: string) returns (halted: bool)
      requires Valid() && AllPrintable(line) && !console.cursorVisible && OnScreen()
      modifies console, buf
      ensures Valid() && !console.cursorVisible && OnScreen()
      ensures halted == ReplyTo(line).Halt? == (Words(line).0 == "halt")
      ensures console.screen == T.Play(old(console.screen), ReplyOps(ReplyTo(line)))
    {
      hide ReplyTo;
      hide Shows;
      hide T.BlankFromCursor;
      hide AllPrintable;
      hide Words;
      RepliesAreWholeLines(line);
      WhatCommandsDo(line);
      halted := false;
      match ReplyTo(line) {
        case Say(text) =>
          T.RunIsPlay(console.screen, text);
          assert T.Puts(text) == ReplyOps(ReplyTo(line));
          Write(text);
        case ClearScreen =>
          ClearConsole();
        case Halt =>
          halted := true;
      }
    }

    method ClearConsole()
      requires Valid() && !console.cursorVisible && OnScreen()
      modifies console, buf
      ensures Valid() && !console.cursorVisible && OnScreen()
      ensures console.screen == T.Play(old(console.screen), [T.Clear])
    {
      hide Shows;
      StoredNarrow(console.content, console.margin, info, buf.Length);
      console.Clear(buf, info, font);
    }

    /** A new prompt on a new line. */
    method PrintPrompt()
      requires Valid() && !console.cursorVisible && OnScreen() && console.screen.col == 0
      modifies this, console, buf
      ensures Valid() && !console.cursorVisible && OnScreen() && LineMatchesScreen()
      ensures lineLen == 0 && widest == 0
      ensures console.screen == T.Run(old(console.screen), PROMPT)
    {
      if |PROMPT| <= console.cols {
        EmptyLineShown(console.screen);
        TypedTextShown(console.screen, "", PROMPT);
      }
      assert "" + PROMPT == PROMPT;
      hide T.Run;
      lineLen := 0;
      widest := 0;
      Write(PROMPT);
      assert PROMPT + lineBuf[..0] == PROMPT;
    }

    /** Enter: the command runs and a fresh prompt follows, unless the command was `halt`. */
    method Enter() returns (halted: bool)
      requires Valid() && !console.cursorVisible && OnScreen()
      modifies this, console, buf
      ensures Valid() && !console.cursorVisible && OnScreen()
      ensures halted == (old(lineLen) > 0 && ReplyTo(old(lineBuf[..lineLen])).Halt?)
      ensures !halted ==> lineLen == 0 && widest == 0 && LineMatchesScreen()
      ensures !halted ==> console.screen == T.Run(EnterOutput(old(console.screen), old(lineBuf[..lineLen])), PROMPT)
    {
      hide ReplyTo;
      hide T.Run;
      hide T.Play;
      hide Shows;
      hide T.BlankFromCursor;
      if lineLen == 0 || !ReplyTo(lineBuf[..lineLen]).Halt? {
        EnterEndsTheLine(console.screen, lineBuf[..lineLen]);
      }
      var cmd := lineBuf[..lineLen];
      Write("\n");
      halted := false;
      if cmd != "" {
        halted := Execute(cmd);
        if halted {
          return;
        }
      }
      PrintPrompt();
    }

    /** One decoded character. The edit buffer changes as a line editor's should, and the row on the
        screen with it. */
    method HandleChar(c: char) returns (halted: bool)
      requires Valid() && LineMatchesScreen() && !console.cursorVisible && OnScreen()
      modifies this, lineBuf, console, buf
      ensures Valid() && !console.cursorVisible && OnScreen()
      ensures halted == Halts(old(lineBuf[..lineLen]), c)
      ensures !halted ==> LineMatchesScreen() && lineBuf[..lineLen] == Edited(old(lineBuf[..lineLen]), c)
      ensures !halted ==> widest == WidestAfter(old(widest), old(lineBuf[..lineLen]), c)
    {
      hide ReplyTo;
      hide Shows;
      hide T.BlankFromCursor;
      halted := false;
      if c == '\n' || c == '\r' {
        halted := Enter();
      } else if c == T.BACKSPACE || c == DELETE {
        if lineLen > 0 {
          Rubout();
        }
      } else if Printable(c) {
        if lineLen < MAX_LINE {
          Type(c);
        }
      }
    }

    method Rubout()
      requires Valid() && LineMatchesScreen() && !console.cursorVisible && OnScreen() && lineLen > 0
      modifies this`lineLen, console, buf
      ensures Valid() && !console.cursorVisible && OnScreen() && LineMatchesScreen()
      ensures lineLen == old(lineLen) - 1
    {
      ghost var shown := PROMPT + lineBuf[..lineLen];
      if |PROMPT| + widest <= console.cols {
        RuboutShown(console.screen, shown);
      } else {
        RubbedOutBehind(console.screen, shown);
      }
      hide LineShown;
      hide Shows;
      hide T.BlankFromCursor;
      lineLen := lineLen - 1;
      assert shown[..|shown| - 1] == PROMPT + lineBuf[..lineLen];
      Write(RUBOUT);
    }

    method Type(c: char)
      requires Valid() && LineMatchesScreen() && !console.cursorVisible && OnScreen()
      requires Printable(c) && lineLen < MAX_LINE
      modifies this`lineLen, this`widest, lineBuf, console, buf
      ensures Valid() && !console.cursorVisible && OnScreen() && LineMatchesScreen()
      ensures lineLen == old(lineLen) + 1 && lineBuf[..lineLen] == old(lineBuf[..lineLen]) + [c]
      ensures widest == if lineLen > old(widest) then lineLen else old(widest)
    {
      ghost var shown := PROMPT + lineBuf[..lineLen];
      lineBuf[lineLen] := c;
      lineLen := lineLen + 1;
      TypedShownIff(console.screen, shown, c, |PROMPT| + widest);
      if widest < lineLen {
        widest := lineLen;
      }
      assert shown + [c] == PROMPT + lineBuf[..lineLen];
      hide LineShown;
      hide Shows;
      hide T.BlankFromCursor;
      Write([c]);
    }

    /** One key as the loop of the shell handles it: hide the text cursor, edit, show the text cursor. What the
        screen shows is the grid with the text cursor behind the line, before and after. */
    method OnKey(c: char) returns (halted: bool)
      requires Valid() && LineMatchesScreen() && console.cursorVisible && OnScreen()
      modifies this, lineBuf, console, buf
      ensures Valid() && OnScreen()
      ensures halted == Halts(old(lineBuf[..lineLen]), c)
      ensures !halted ==> console.cursorVisible && LineMatchesScreen()
                          && lineBuf[..lineLen] == Edited(old(lineBuf[..lineLen]), c)
                          && widest == WidestAfter(old(widest), old(lineBuf[..lineLen]), c)
    {
      hide ReplyTo;
      hide Shows;
      hide LineShown;
      hide T.BlankFromCursor;
      console.EraseCursor(buf, info, font);
      halted := HandleChar(c);
      if !halted {
        console.DrawCursor(buf, info, font);
      }
    }

    /** The loop of the shell over any keys, up to a `halt`: the edit buffer holds what a line editor
        would hold, and the row on the screen shows it exactly as long as the keys never typed a line
        that is too long for the row. */
    method OnKeys(keys: string) returns (halted: bool)
      requires Valid() && LineMatchesScreen() && console.cursorVisible && OnScreen()
      modifies this, lineBuf, console, buf
      ensures Valid() && OnScreen()
      ensures halted <==> exists k :: 0 <= k < |keys| && Halts(EditedBy(old(lineBuf[..lineLen]), keys[..k]), keys[k])
      ensures !halted ==> console.cursorVisible && LineMatchesScreen()
                          && lineBuf[..lineLen] == EditedBy(old(lineBuf[..lineLen]), keys)
                          && widest == WidestBy(old(widest), old(lineBuf[..lineLen]), keys)
    {
      hide Shows;
      hide LineShown;
      hide Edited;
      hide Halts;
      hide WidestAfter;
      hide Behind;
      hide T.BlankFromCursor;
      ghost var line, wide := lineBuf[..lineLen], widest;
      halted := false;
      for i := 0 to |keys|
        invariant Valid() && OnScreen() && console.cursorVisible && LineMatchesScreen()
        invariant lineBuf[..lineLen] == EditedBy(line, keys[..i]) && widest == WidestBy(wide, line, keys[..i])
        invariant forall k :: 0 <= k < i ==> !Halts(EditedBy(line, keys[..k]), keys[k])
      {
        halted := OnKey(keys[i]);
        if halted {
          return;
        }
        assert keys[..i + 1][..i] == keys[..i];
      }
      assert keys[..|keys|] == keys;
    }
  }

  /** Whether a character, typed behind `line`, runs a command that never returns. */
  predicate Halts(line: string, c: char) {
    c in {'\n', '\r'} && line != "" && ReplyTo(line).Halt?
  }

  /** The line being edited after the keys. */
  function EditedBy(line: string, keys: string): string {
    if keys == [] then line else Edited(EditedBy(line, keys[..|keys| - 1]), keys[|keys| - 1])
  }

  /** The longest the line has been since the last prompt, after one more character. */
  function WidestAfter(widest: nat, line: string, c: char): nat {
    if c in {'\n', '\r'} then 0
    else if |Edited(line, c)| > widest then |Edited(line, c)|
    else widest
  }

  function WidestBy(widest: nat, line: string, keys: string): nat {
    if keys == [] then widest
    else
      var n := |keys| - 1;
      WidestAfter(WidestBy(widest, line, keys[..n]), EditedBy(line, keys[..n]), keys[n])
  }

  /** Up to the next Enter the width stays within `n` exactly if no prefix of the keys makes the line longer. */
  lemma {:induction false} WidestIsLongest(widest: nat, line: string, keys: string, n: nat)
    requires '\n' !in keys && '\r' !in keys
    ensures WidestBy(widest, line, keys) <= n <==>
            widest <= n && forall k :: 1 <= k <= |keys| ==> |EditedBy(line, keys[..k])| <= n
    decreases |keys|
  {
    hide Edited;
    if keys != [] {
      var m := |keys| - 1;
      WidestIsLongest(widest, line, keys[..m], n);
      assert keys[m] in keys && keys[..m + 1] == keys;
      forall k | 1 <= k <= m
        ensures keys[..m][..k] == keys[..k]
      {
      }
    }
  }

  /** Typing keeps the line shown exactly if it still fits; `width` is the widest it has been. */
  lemma TypedShownIff(s: T.Screen, text: string, c: char, width: nat)
    requires s.Valid() && !s.Degenerate() && Printable(c) && |text| <= width
    requires LineShown(s, text) <==> width <= s.cols
    requires Behind(s, text) <==> width > s.cols
    ensures var fits := (if width > |text| then width else |text| + 1) <= s.cols;
            && (LineShown(T.Run(s, [c]), text + [c]) <==> fits)
            && (Behind(T.Run(s, [c]), text + [c]) <==> !fits)
  {
    assert T.Run(s, [c]) == T.Run(T.Step(s, c), []);
    if width > s.cols {
      TypedBehind(s, text, c);
    } else if |text| == s.cols {
      OverflowFallsBehind(s, text, c);
    } else {
      TypedCharShown(s, text, c);
    }
  }

  /** Typing fills the line, and as many backspaces empty it again, as long as it has room. */
  lemma {:induction false} TypedThenRubbedOut(line: string, text: string, rubouts: string)
    requires AllPrintable(text) && |line| + |text| <= MAX_LINE && |rubouts| == |text|
    requires forall i :: 0 <= i < |rubouts| ==> rubouts[i] in {T.BACKSPACE, DELETE}
    ensures EditedBy(line, text) == line + text
    ensures EditedBy(line, text + rubouts) == line
    decreases |text|
  {
    if text == "" {
      assert line + text == line && text + rubouts == text;
    } else {
      var n := |text| - 1;
      TypedThenRubbedOut(line, text[..n], rubouts[1..]);
      assert Edited(line + text[..n], text[n]) == line + text[..n] + [text[n]] == line + text;
      assert EditedBy(line, text) == line + text;
      assert Edited(line + text, rubouts[0]) == line + text[..n];
      SwapRubout(line, text, rubouts);
    }
  }

  /** A character and the rubout right behind it cancel out. */
  lemma SwapRubout(line: string, text: string, rubouts: string)
    requires text != "" && rubouts != ""
    requires Edited(EditedBy(line, text), rubouts[0]) == EditedBy(line, text[..|text| - 1])
    ensures EditedBy(line, text + rubouts) == EditedBy(line, text[..|text| - 1] + rubouts[1..])
  {
    hide Edited;
    var n := |text| - 1;
    EditedByConcat(line, text + [rubouts[0]], rubouts[1..]);
    EditedByConcat(line, text[..n], rubouts[1..]);
    assert text + rubouts == text + [rubouts[0]] + rubouts[1..];
    assert (text + [rubouts[0]])[..|text|] == text;
  }

  lemma {:induction false} EditedByConcat(line: string, a: string, b: string)
    ensures EditedBy(line, a + b) == EditedBy(EditedBy(line, a), b)
    decreases |b|
  {
    if b == [] {
      assert a + b == a;
    } else {
      var n := |b| - 1;
      assert (a + b)[..|a + b| - 1] == a + b[..n];
      EditedByConcat(line, a, b[..n]);
    }
  }

  /** What one character does to the line being edited. */
  function Edited(line: string, c: char): string {
    if c == '\n' || c == '\r' then ""
    else if c == T.BACKSPACE || c == DELETE then (if line == "" then line else line[..|line| - 1])
    else if Printable(c) && |line| < MAX_LINE then line + [c]
    else line
  }

  /** The screen after Enter, before the next prompt. */
  function EnterOutput(s: T.Screen, line: string): (s': T.Screen)
    requires s.Valid()
    ensures s'.Valid()
  {
    var t := T.Run(s, "\n");
    if line == "" then t else T.Play(t, ReplyOps(ReplyTo(line)))
  }

  /** What Enter puts on the screen: a new line, and behind it the reply. */
  lemma EnterShows(s: T.Screen, line: string)
    requires s.Valid()
    ensures line == "" ==> EnterOutput(s, line) == T.Run(s, "\n")
    ensures line != "" && ReplyTo(line).Say? ==> EnterOutput(s, line) == T.Run(T.Run(s, "\n"), ReplyTo(line).text)
    ensures line != "" && ReplyTo(line).ClearScreen? ==> EnterOutput(s, line) == T.Blank(s.rows, s.cols)
  {
    hide ReplyTo;
    if ReplyTo(line).Say? {
      T.RunIsPlay(T.Run(s, "\n"), ReplyTo(line).text);
    } else if ReplyTo(line).ClearScreen? {
      T.PlayOne(T.Run(s, "\n"), T.Clear);
    }
  }

  /** Characters from space to tilde are printable; other characters, and any beyond the end of the edit
      buffer, are ignored; Enter leaves an empty line. */
  lemma EditedIs(line: string, c: char)
    ensures Printable(c) <==> 32 <= c as int < 127
    ensures c in {'\n', '\r'} ==> Edited(line, c) == ""
    ensures Printable(c) && |line| < 256 ==> Edited(line, c) == line + [c]
    ensures c !in {'\n', '\r', T.BACKSPACE, DELETE} && !(Printable(c) && |line| < 256) ==> Edited(line, c) == line
    ensures c in {T.BACKSPACE, DELETE} ==>
              (line == "" ==> Edited(line, c) == "") && (line != "" ==> Edited(line, c) + [line[|line| - 1]] == line)
  {
  }

  lemma EnterEndsTheLine(s: T.Screen, line: string)
    requires s.Valid() && AllPrintable(line)
    requires line == "" || !ReplyTo(line).Halt?
    ensures EnterOutput(s, line).col == 0
  {
    hide ReplyTo;
    T.RunIsPlay(s, "\n");
    T.LineEnds(s, T.Puts("\n"));
    if line != "" {
      CommandsEndTheLine(line, T.Run(s, "\n"));
    }
  }

  lemma StoredNarrow(content: Rect, margin: nat, info: Info, len: nat)
    requires Stored(Widened(content, margin), info, len)
    ensures Stored(content, info, len)
  {
  }
}
