/** The character grid a Console is meant to show, as plain values.

    The console never clears a cell before drawing into it, so a cell holds the
    set of characters struck there since it was last blank. Overwrite is the
    ordinary scrolling terminal; the two agree as long as '\r' is not used. */
module Terminal {

  const NEWLINE: char := '\n'
  const RETURN: char := '\r'
  const BACKSPACE: char := '\U{8}'

  type Cell = set<char>

  datatype Screen = Screen(rows: nat, cols: nat, cells: seq<seq<Cell>>, row: nat, col: nat) {
    predicate Valid() {
      && |cells| == rows
      && (forall r :: 0 <= r < rows ==> |cells[r]| == cols)
      && col <= cols
      && (if Degenerate() then row == 0 && col == 0 else row < rows)
    }

    predicate Degenerate() {
      rows == 0 || cols == 0
    }

    /** (r, c) is at or after the cursor in reading order. */
    predicate AtOrAfterCursor(r: int, c: int) {
      row < r || (row == r && col <= c)
    }
  }

  function BlankRow(cols: nat): (r: seq<Cell>)
    ensures |r| == cols && forall c :: 0 <= c < cols ==> r[c] == {}
  {
    seq(cols, _ => {})
  }

  function Blank(rows: nat, cols: nat): (s: Screen)
    ensures s.Valid()
  {
    Screen(rows, cols, seq(rows, _ => BlankRow(cols)), 0, 0)
  }

  /** Every row moves up by one; a blank row enters at the bottom, where the cursor goes. */
  function Scroll(s: Screen): Screen
    requires s.rows > 0 && |s.cells| == s.rows
  {
    s.(cells := s.cells[1..] + [BlankRow(s.cols)], row := s.rows - 1)
  }

  function NextLine(s: Screen): (s': Screen)
    requires s.Valid() && !s.Degenerate()
    ensures s'.Valid() && s'.rows == s.rows && s'.cols == s.cols && s'.col == 0
  {
    if s.row + 1 < s.rows then s.(col := 0, row := s.row + 1) else Scroll(s.(col := 0))
  }

  function SetCell(s: Screen, r: nat, c: nat, cell: Cell): (s': Screen)
    requires s.Valid() && r < s.rows && c < s.cols
    ensures s'.Valid()
  {
    s.(cells := s.cells[r := s.cells[r][c := cell]])
  }

  /** Where the next glyph goes: a full row wraps first. */
  function Wrapped(s: Screen): (s': Screen)
    requires s.Valid() && !s.Degenerate()
    ensures s'.Valid() && s'.rows == s.rows && s'.cols == s.cols && s'.col < s'.cols
  {
    if s.col >= s.cols then NextLine(s) else s
  }

  function Step(s: Screen, c: char): (s': Screen)
    requires s.Valid()
    ensures s'.Valid() && s'.rows == s.rows && s'.cols == s.cols
  {
    if s.Degenerate() then s
    else if c == NEWLINE then NextLine(s)
    else if c == RETURN then s.(col := 0)
    else if c == BACKSPACE then
      if s.col == 0 then s else SetCell(s, s.row, s.col - 1, {}).(col := s.col - 1)
    else
      var t := Wrapped(s);
      SetCell(t, t.row, t.col, t.cells[t.row][t.col] + {c}).(col := t.col + 1)
  }

  /** The same terminal, except that a printed character replaces what was in its cell. */
  function Overwrite(s: Screen, c: char): (s': Screen)
    requires s.Valid()
    ensures s'.Valid() && s'.rows == s.rows && s'.cols == s.cols
  {
    if s.Degenerate() || c in {NEWLINE, RETURN, BACKSPACE} then Step(s, c)
    else
      var t := Wrapped(s);
      SetCell(t, t.row, t.col, {c}).(col := t.col + 1)
  }

  function Run(s: Screen, text: string): (s': Screen)
    requires s.Valid()
    ensures s'.Valid() && s'.rows == s.rows && s'.cols == s.cols
    decreases |text|
  {
    if text == [] then s else Run(Step(s, text[0]), text[1..])
  }

  ghost predicate BlankFromCursor(s: Screen)
    requires s.Valid()
  {
    forall r, c :: 0 <= r < s.rows && 0 <= c < s.cols && s.AtOrAfterCursor(r, c) ==> s.cells[r][c] == {}
  }

  /** Without '\r', the blank-at-or-after-cursor invariant is kept, and under it the console's
      overstriking is indistinguishable from overwriting. */
  lemma StepKeepsBlank(s: Screen, c: char)
    requires s.Valid() && BlankFromCursor(s) && c != RETURN
    ensures BlankFromCursor(Step(s, c))
    ensures Step(s, c) == Overwrite(s, c)
  {
    if !s.Degenerate() && c !in {NEWLINE, BACKSPACE} {
      var t := Wrapped(s);
      assert BlankFromCursor(t);
      assert t.AtOrAfterCursor(t.row, t.col);
      assert t.cells[t.row][t.col] + {c} == {c};
    }
  }

  lemma {:induction false} RunKeepsBlank(s: Screen, text: string)
    requires s.Valid() && BlankFromCursor(s) && RETURN !in text
    ensures BlankFromCursor(Run(s, text))
    decreases |text|
  {
    if text != [] {
      StepKeepsBlank(s, text[0]);
      RunKeepsBlank(Step(s, text[0]), text[1..]);
    }
  }

  /** One character is overstruck on a different one exactly when the cell it lands in already
      holds something else; this is the whole difference between Step and Overwrite. */
  lemma OverstrikeIff(s: Screen, c: char)
    requires s.Valid() && !s.Degenerate() && c !in {NEWLINE, RETURN, BACKSPACE}
    ensures Step(s, c) == Overwrite(s, c) <==> Wrapped(s).cells[Wrapped(s).row][Wrapped(s).col] <= {c}
  {
    var t := Wrapped(s);
    var cell := t.cells[t.row][t.col];
    assert Step(s, c).cells[t.row][t.col] == cell + {c};
    assert Overwrite(s, c).cells[t.row][t.col] == {c};
    if cell <= {c} {
      assert cell + {c} == {c};
    } else {
      assert cell + {c} != {c};
    }
  }

  /** What a task can do to its console. */
  datatype Op = Put(c: char) | Clear

  function Puts(text: string): (ops: seq<Op>)
    ensures |ops| == |text| && forall i :: 0 <= i < |text| ==> ops[i] == Put(text[i])
  {
    seq(|text|, i requires 0 <= i < |text| => Put(text[i]))
  }

  function Play(s: Screen, ops: seq<Op>): (s': Screen)
    requires s.Valid()
    ensures s'.Valid() && s'.rows == s.rows && s'.cols == s.cols
    decreases |ops|
  {
    if ops == [] then s
    else Play(if ops[0].Put? then Step(s, ops[0].c) else Blank(s.rows, s.cols), ops[1..])
  }

  function OverwritePlay(s: Screen, ops: seq<Op>): (s': Screen)
    requires s.Valid()
    ensures s'.Valid() && s'.rows == s.rows && s'.cols == s.cols
    decreases |ops|
  {
    if ops == [] then s
    else OverwritePlay(if ops[0].Put? then Overwrite(s, ops[0].c) else Blank(s.rows, s.cols), ops[1..])
  }

  lemma {:induction false} RunIsPlay(s: Screen, text: string)
    requires s.Valid()
    ensures Run(s, text) == Play(s, Puts(text))
    decreases |text|
  {
    if text != [] {
      assert Puts(text)[1..] == Puts(text[1..]);
      RunIsPlay(Step(s, text[0]), text[1..]);
    }
  }

  lemma {:induction false} PlayConcat(s: Screen, a: seq<Op>, b: seq<Op>)
    requires s.Valid()
    ensures Play(s, a + b) == Play(Play(s, a), b)
    decreases |a|
  {
    if a == [] {
      assert a + b == b;
    } else {
      assert (a + b)[1..] == a[1..] + b;
      PlayConcat(if a[0].Put? then Step(s, a[0].c) else Blank(s.rows, s.cols), a[1..], b);
    }
  }

  /** Whatever came before, a newline or a clear leaves the cursor at column 0. */
  lemma LineEnds(s: Screen, ops: seq<Op>)
    requires s.Valid() && ops != [] && (ops[|ops| - 1] == Clear || ops[|ops| - 1] == Put(NEWLINE))
    ensures Play(s, ops).col == 0
  {
    var n, last := |ops| - 1, ops[|ops| - 1];
    assert ops == ops[..n] + [last];
    PlayConcat(s, ops[..n], [last]);
    var t := Play(s, ops[..n]);
    assert Play(t, [last]) == Play(if last.Put? then Step(t, last.c) else Blank(t.rows, t.cols), []);
  }

  lemma {:induction false} PlayIsOverwriting(s: Screen, ops: seq<Op>)
    requires s.Valid() && BlankFromCursor(s) && Put(RETURN) !in ops
    ensures Play(s, ops) == OverwritePlay(s, ops)
    ensures BlankFromCursor(Play(s, ops))
    decreases |ops|
  {
    if ops != [] {
      if ops[0].Put? {
        assert ops[0].c != RETURN;
        StepKeepsBlank(s, ops[0].c);
        PlayIsOverwriting(Step(s, ops[0].c), ops[1..]);
      } else {
        PlayIsOverwriting(Blank(s.rows, s.cols), ops[1..]);
      }
    }
  }

  /** With '\r' the two terminals part: the second character is struck over the first. */
  lemma ReturnOverstrikes()
    ensures var ops := [Put('a'), Put(RETURN), Put('b')];
            && Play(Blank(1, 2), ops).cells[0][0] == {'a', 'b'}
            && OverwritePlay(Blank(1, 2), ops).cells[0][0] == {'b'}
  {
    var a := Step(Blank(1, 2), 'a');
    var r := Step(a, RETURN);
    var ops := [Put('a'), Put(RETURN), Put('b')];
    assert ops[1..][1..] == [Put('b')] && ops[1..][0] == Put(RETURN) && [Put('b')][1..] == [];
    assert a.cells[0][0] == {'a'} && Step(r, 'b').cells[0][0] == {'a', 'b'};
    assert Play(Blank(1, 2), ops) == Play(a, ops[1..]) == Play(r, [Put('b')]) == Play(Step(r, 'b'), []);
    assert Overwrite(Blank(1, 2), 'a') == a;
    assert OverwritePlay(Blank(1, 2), ops) == OverwritePlay(a, ops[1..])
        == OverwritePlay(r, [Put('b')]) == OverwritePlay(Overwrite(r, 'b'), []);
  }

  // ---------------------------------------------------------------------------
  // The same terminal without a screen
  // ---------------------------------------------------------------------------

  /** The lines written so far, wrapped at `cols`, none of them ever lost, after one more character. */
  function Typed(lines: seq<string>, c: char, cols: nat): (lines': seq<string>)
    requires lines != []
    ensures lines' != []
  {
    var n := |lines| - 1;
    var last := lines[n];
    if c == NEWLINE then lines + [""]
    else if c == BACKSPACE then (if last == "" then lines else lines[..n] + [last[..|last| - 1]])
    else if |last| >= cols then lines + [[c]]
    else lines[..n] + [last + [c]]
  }

  function Lines(ops: seq<Op>, cols: nat): (lines: seq<string>)
    ensures lines != []
  {
    if ops == [] then [""]
    else
      match ops[|ops| - 1]
      case Put(c) => Typed(Lines(ops[..|ops| - 1], cols), c, cols)
      case Clear => [""]
  }

  /** What line k shows in column c. */
  function Written(lines: seq<string>, k: int, c: nat): Cell {
    if 0 <= k < |lines| && c < |lines[k]| then {lines[k][c]} else {}
  }

  /** The screen shows the last lines, as many as it has rows, from the top while they all fit; the cursor
      is behind the last one, and everything else is blank. */
  ghost predicate ShowsLines(s: Screen, lines: seq<string>) {
    && s.Valid() && !s.Degenerate() && lines != []
    && s.row == (if |lines| <= s.rows then |lines| - 1 else s.rows - 1)
    && s.col == |lines[|lines| - 1]|
    && forall r, c :: 0 <= r < s.rows && 0 <= c < s.cols ==>
         s.cells[r][c] == Written(lines, |lines| - 1 - s.row + r, c)
  }

  lemma NewlineShown(s: Screen, lines: seq<string>)
    requires ShowsLines(s, lines)
    ensures ShowsLines(NextLine(s), lines + [""])
  {
  }

  lemma PrintedShown(s: Screen, lines: seq<string>, c: char)
    requires ShowsLines(s, lines) && s.col < s.cols
    ensures var n := |lines| - 1;
            ShowsLines(SetCell(s, s.row, s.col, {c}).(col := s.col + 1), lines[..n] + [lines[n] + [c]])
  {
  }

  lemma BackspaceShown(s: Screen, lines: seq<string>)
    requires ShowsLines(s, lines) && s.col > 0
    ensures var n := |lines| - 1;
            ShowsLines(SetCell(s, s.row, s.col - 1, {}).(col := s.col - 1), lines[..n] + [lines[n][..|lines[n]| - 1]])
  {
  }

  /** One character on the screen is one character in the lines. */
  lemma StepShowsLines(s: Screen, lines: seq<string>, c: char)
    requires ShowsLines(s, lines) && c != RETURN
    ensures ShowsLines(Step(s, c), Typed(lines, c, s.cols))
  {
    if c == NEWLINE {
      NewlineShown(s, lines);
    } else if c == BACKSPACE {
      if s.col > 0 {
        BackspaceShown(s, lines);
      }
    } else {
      var t := Wrapped(s);
      var lines' := if s.col >= s.cols then lines + [""] else lines;
      if s.col >= s.cols {
        NewlineShown(s, lines);
      }
      assert t.cells[t.row][t.col] + {c} == {c};
      PrintedShown(t, lines', c);
      if s.col >= s.cols {
        assert "" + [c] == [c] && lines'[..|lines|] == lines;
      }
    }
  }

  /** Any run of clears and characters without '\r' on a new screen shows the last lines of what was written. */
  lemma {:induction false} ScreenShowsLines(rows: nat, cols: nat, ops: seq<Op>)
    requires rows > 0 && cols > 0 && Put(RETURN) !in ops
    ensures ShowsLines(Play(Blank(rows, cols), ops), Lines(ops, cols))
    decreases |ops|
  {
    if ops != [] {
      var n := |ops| - 1;
      var last, s := ops[n], Play(Blank(rows, cols), ops[..n]);
      assert ops == ops[..n] + [last] && last in ops;
      ScreenShowsLines(rows, cols, ops[..n]);
      PlayConcat(Blank(rows, cols), ops[..n], [last]);
      PlayOne(s, last);
      if last.Put? {
        StepShowsLines(s, Lines(ops[..n], cols), last.c);
      }
    }
  }

  lemma PlayOne(s: Screen, op: Op)
    requires s.Valid()
    ensures Play(s, [op]) == if op.Put? then Step(s, op.c) else Blank(s.rows, s.cols)
  {
    assert [op][1..] == [];
  }

  /** A newline goes one row down; only on the last row it scrolls instead, and then what was the cursor's
      row is the row above it. */
  lemma NewlineGoesDown(s: Screen)
    requires s.Valid() && !s.Degenerate()
    ensures var t := Step(s, NEWLINE);
            && t.col == 0
            && (s.row + 1 < s.rows ==> t.row == s.row + 1 && t.cells == s.cells)
            && (s.row + 1 == s.rows ==> t.row == s.row)
            && (s.rows > 1 ==> t.cells[t.row - 1] == s.cells[s.row])
  {
  }
}
