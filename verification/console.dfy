/** The pixel text console: character cells inside a rectangle of a larger buffer. */
module Consoles {
  import opened Prelude
  import opened Pixels
  import opened Drawing
  import T = Terminal

  /** Every pixel of `area` is stored in a buffer of `len` bytes. */
  ghost predicate Stored(area: Rect, info: Info, len: nat) {
    forall px: nat, py: nat :: area.Contains(px, py) ==> info.Has(len, px, py)
  }

  /** Pixel (dx, dy) of the content is lit by some character struck in its cell. */
  ghost predicate CellLit(s: T.Screen, font: Font, dx: int, dy: int)
    requires s.Valid()
  {
    && 0 <= dx < s.cols * FONT_WIDTH && 0 <= dy < s.rows * FONT_HEIGHT
    && CharsLit(s.cells[dy / FONT_HEIGHT][dx / FONT_WIDTH], font, dx % FONT_WIDTH, dy % FONT_HEIGHT)
  }

  ghost predicate CharsLit(cell: T.Cell, font: Font, dx: int, dy: int) {
    exists ch :: ch in cell && Lit(font, ch, dx, dy)
  }

  /** The content rectangle, and `margin` pixel columns to its right, show exactly the grid on
      black; if `cursor`, the one-pixel cursor column is white on top of it. */
  ghost predicate Shows(buf: seq<Byte>, info: Info, font: Font, content: Rect, margin: nat,
                        s: T.Screen, cursor: bool)
    requires info.Valid() && s.Valid()
  {
    forall px: nat, py: nat :: Widened(content, margin).Contains(px, py) ==>
      ReadPixel(buf, info, px, py) ==
      if (cursor && CursorAt(content, s.col, s.row).Contains(px, py)) || CellLit(s, font, px - content.x, py - content.y)
      then WHITE else BLACK
  }

  function Widened(content: Rect, margin: nat): Rect {
    content.(width := content.width + margin)
  }

  /** The text cursor: a one-pixel column at the left of cell (row, col). */
  function CursorAt(content: Rect, col: nat, row: nat): Rect {
    Rect(content.x + col * FONT_WIDTH, content.y + row * FONT_HEIGHT, 1, FONT_HEIGHT)
  }

  /** The grid is the one `content` has room for. */
  predicate Sized(s: T.Screen, content: Rect) {
    s.rows == content.height / FONT_HEIGHT && s.cols == content.width / FONT_WIDTH
  }

  /** The effect of scrolling on colours: content rows move up by one text line, the last text
      line's worth of pixels turns black, and nothing outside the content changes. */
  ghost predicate Scrolled(before: seq<Byte>, after: seq<Byte>, info: Info, content: Rect)
    requires info.Valid()
  {
    && |after| == |before|
    && forall px: nat, py: nat {:trigger ReadPixel(after, info, px, py)} ::
         ReadPixel(after, info, px, py) ==
         if !content.Contains(px, py) then ReadPixel(before, info, px, py)
         else if content.Contains(px, py + FONT_HEIGHT) then ReadPixel(before, info, px, py + FONT_HEIGHT)
         else BLACK
  }

  /** No colour differs outside `area`. */
  ghost predicate SameOutside(before: seq<Byte>, after: seq<Byte>, info: Info, area: Rect)
    requires info.Valid()
  {
    && |after| == |before|
    && forall px: nat, py: nat :: !area.Contains(px, py) ==>
         ReadPixel(after, info, px, py) == ReadPixel(before, info, px, py)
  }

  /** A displayed grid, read cell by cell: pixel (gx, gy) of the glyph in row r, column c is the pixel pair
      at 8 * c + gx and 16 * r + 2 * gy of the content, white where the glyph has a dot, black elsewhere. */
  lemma CellAppears(buf: seq<Byte>, info: Info, font: Font, content: Rect, margin: nat, s: T.Screen,
                    r: nat, c: nat, gx: nat, gy: nat, half: nat)
    requires info.Valid() && s.Valid() && Sized(s, content) && Shows(buf, info, font, content, margin, s, false)
    requires r < s.rows && c < s.cols && gx < 8 && gy < 8 && half < 2
    ensures var pixel := ReadPixel(buf, info, content.x + 8 * c + gx, content.y + 16 * r + 2 * gy + half);
            && (s.cells[r][c] == {} ==> pixel == BLACK)
            && forall ch :: s.cells[r][c] == {ch} ==>
                 pixel == if BitOn(GlyphOf(font, ch), gx, gy) then WHITE else BLACK
  {
    var dx, dy := 8 * c + gx, 16 * r + 2 * gy + half;
    assert dx / 8 == c && dx % 8 == gx && dy / 16 == r && dy % 16 == 2 * gy + half;
    assert content.Contains(content.x + dx, content.y + dy);
    hide ReadPixel;
    hide BitOn;
  }

  /** The text cursor is the leftmost pixel column of the cell that comes next. */
  lemma CursorIsLeftOfCell(content: Rect, col: nat, row: nat, px: nat, py: nat)
    ensures CursorAt(content, col, row).Contains(px, py) <==>
            content.x <= px && content.y <= py
            && (px - content.x) / 8 == col && (px - content.x) % 8 == 0 && (py - content.y) / 16 == row
  {
  }

  class Console {
    const content: Rect
    const cols: nat
    const rows: nat
    var col: nat
    var row: nat
    var cursorVisible: bool
    /** The grid this console is supposed to show. */
    ghost var screen: T.Screen
    /** How many pixel columns right of the content are claimed to stay black. */
    ghost const margin: nat

    ghost predicate Valid()
      reads this
    {
      && cols == content.width / FONT_WIDTH && rows == content.height / FONT_HEIGHT
      && screen.Valid() && screen.rows == rows && screen.cols == cols
      && screen.row == row && screen.col == col
    }

    ghost predicate Displays(buf: seq<Byte>, info: Info, font: Font)
      requires info.Valid() && Valid()
      reads this
    {
      Shows(buf, info, font, content, margin, screen, cursorVisible)
    }

    constructor (buf: array<Byte>, info: Info, content: Rect, ghost margin: nat)
      requires info.Valid() && Stored(content, info, buf.Length)
      modifies buf
      ensures Valid() && this.content == content && this.margin == margin && !cursorVisible
      ensures 8 * cols <= content.width < 8 * (cols + 1) && 16 * rows <= content.height < 16 * (rows + 1)
      ensures screen == T.Blank(rows, cols)
      ensures SameOutside(old(buf[..]), buf[..], info, content)
      ensures forall font ::
        (forall px: nat, py: nat :: Widened(content, margin).Contains(px, py) && !content.Contains(px, py) ==>
           old(ReadPixel(buf[..], info, px, py)) == BLACK)
        ==> Displays(buf[..], info, font)
    {
      this.content := content;
      this.margin := margin;
      cols := content.width / FONT_WIDTH;
      rows := content.height / FONT_HEIGHT;
      col, row, cursorVisible := 0, 0, false;
      screen := T.Blank(content.height / FONT_HEIGHT, content.width / FONT_WIDTH);
      new;
      FillRect(buf, info, content, BLACK);
    }

    method Clear(buf: array<Byte>, info: Info, font: Font)
      requires Valid() && info.Valid() && Stored(content, info, buf.Length)
      modifies this, buf
      ensures Valid() && cursorVisible == old(cursorVisible)
      ensures screen == T.Blank(rows, cols)
      ensures SameOutside(old(buf[..]), buf[..], info, content)
      ensures old(Displays(buf[..], info, font) && !cursorVisible) ==> Displays(buf[..], info, font)
    {
      FillRect(buf, info, content, BLACK);
      col, row := 0, 0;
      screen := T.Blank(rows, cols);
    }

    /** Draws `c` over whatever is in the cell. */
    method DrawChar(buf: array<Byte>, info: Info, font: Font, c: char, col: nat, row: nat)
      requires info.Valid()
      modifies buf
      ensures Painted(old(buf[..]), buf[..], info,
                      Text(font, [c], content.x + col * FONT_WIDTH, content.y + row * FONT_HEIGHT), WHITE)
    {
      var x0 := content.x + col * FONT_WIDTH;
      var y0 := content.y + row * FONT_HEIGHT;
      DrawCharAt(buf, info, font, x0, y0, c, WHITE);
    }

    method ClearChar(buf: array<Byte>, info: Info, col: nat, row: nat)
      requires info.Valid()
      modifies buf
      ensures Painted(old(buf[..]), buf[..], info,
                      Box(Rect(content.x + col * FONT_WIDTH, content.y + row * FONT_HEIGHT, FONT_WIDTH, FONT_HEIGHT)),
                      BLACK)
    {
      var x0 := content.x + col * FONT_WIDTH;
      var y0 := content.y + row * FONT_HEIGHT;
      for dy := 0 to FONT_HEIGHT
        invariant Painted(old(buf[..]), buf[..], info, Box(Rect(x0, y0, FONT_WIDTH, dy)), BLACK)
      {
        for dx := 0 to FONT_WIDTH
          invariant forall px: nat, py: nat ::
            ReadPixel(buf[..], info, px, py) ==
            if (Rect(x0, y0, FONT_WIDTH, dy).Contains(px, py) || Rect(x0, y0 + dy, dx, 1).Contains(px, py))
               && info.Has(buf.Length, px, py)
            then BLACK
            else old(ReadPixel(buf[..], info, px, py))
        {
          PutPixel(buf, info, x0 + dx, y0 + dy, BLACK);
        }
      }
    }

    method DrawColumn(buf: array<Byte>, info: Info, c: Color)
      requires info.Valid()
      modifies buf
      ensures Painted(old(buf[..]), buf[..], info, Box(CursorAt(content, col, row)), c)
    {
      var x := content.x + col * FONT_WIDTH;
      var y0 := content.y + row * FONT_HEIGHT;
      for dy := 0 to FONT_HEIGHT
        invariant Painted(old(buf[..]), buf[..], info, Box(Rect(x, y0, 1, dy)), c)
      {
        PutPixel(buf, info, x, y0 + dy, c);
      }
    }

    /** Where the text cursor may be drawn without leaving the rectangle `Displays` speaks of. */
    ghost predicate CursorFits(info: Info, len: nat) {
      rows > 0 && cols > 0 && margin >= 1 && Stored(Widened(content, margin), info, len)
    }

    method DrawCursor(buf: array<Byte>, info: Info, font: Font)
      requires Valid() && info.Valid()
      modifies this`cursorVisible, buf
      ensures Valid() && cursorVisible
      ensures old(cursorVisible) ==> buf[..] == old(buf[..])
      ensures !old(cursorVisible) ==> Painted(old(buf[..]), buf[..], info, Box(CursorAt(content, col, row)), WHITE)
      ensures CursorFits(info, buf.Length) && old(Displays(buf[..], info, font)) ==> Displays(buf[..], info, font)
    {
      if !cursorVisible {
        DrawColumn(buf, info, WHITE);
        cursorVisible := true;
        if CursorFits(info, buf.Length) && old(Displays(buf[..], info, font)) {
          CursorShown(old(buf[..]), buf[..], info, font, content, margin, screen);
        }
      }
    }

    method EraseCursor(buf: array<Byte>, info: Info, font: Font)
      requires Valid() && info.Valid()
      modifies this`cursorVisible, buf
      ensures Valid() && !cursorVisible
      ensures !old(cursorVisible) ==> buf[..] == old(buf[..])
      ensures old(cursorVisible) ==> Painted(old(buf[..]), buf[..], info, Box(CursorAt(content, col, row)), BLACK)
      ensures CursorFits(info, buf.Length) && old(Displays(buf[..], info, font)) && T.BlankFromCursor(screen) ==>
              Displays(buf[..], info, font)
    {
      if cursorVisible {
        DrawColumn(buf, info, BLACK);
        cursorVisible := false;
        if CursorFits(info, buf.Length) && old(Displays(buf[..], info, font)) && T.BlankFromCursor(screen) {
          CursorHidden(old(buf[..]), buf[..], info, font, content, margin, screen);
        }
      }
    }

    method WriteStr(buf: array<Byte>, info: Info, font: Font, text: string)
      requires Valid() && info.Valid() && Stored(content, info, buf.Length)
      modifies this, buf
      ensures Valid() && cursorVisible == old(cursorVisible)
      ensures screen == T.Run(old(screen), text)
      ensures SameOutside(old(buf[..]), buf[..], info, content)
      ensures old(Displays(buf[..], info, font) && !cursorVisible) ==> Displays(buf[..], info, font)
    {
      hide Shows;
      hide Stored;
      hide SameOutside;
      Untouched(buf[..], info, font, content, margin, screen, screen);
      assert text[0..] == text;
      for i := 0 to |text|
        invariant Valid() && cursorVisible == old(cursorVisible)
        invariant T.Run(screen, text[i..]) == T.Run(old(screen), text)
        invariant SameOutside(old(buf[..]), buf[..], info, content)
        invariant old(Displays(buf[..], info, font) && !cursorVisible) ==> Displays(buf[..], info, font)
      {
        ghost var mid := buf[..];
        WriteChar(buf, info, font, text[i]);
        assert text[i..][1..] == text[i + 1..];
        SameOutsideTrans(old(buf[..]), mid, buf[..], info, content);
      }
    }

    method WriteChar(buf: array<Byte>, info: Info, font: Font, c: char)
      requires Valid() && info.Valid() && Stored(content, info, buf.Length)
      modifies this, buf
      ensures Valid() && cursorVisible == old(cursorVisible)
      ensures screen == T.Step(old(screen), c)
      ensures SameOutside(old(buf[..]), buf[..], info, content)
      ensures old(Displays(buf[..], info, font) && !cursorVisible) ==> Displays(buf[..], info, font)
    {
      if rows == 0 || cols == 0 {
        return;
      }
      hide Shows;
      hide SameOutside;
      hide Stored;
      ghost var was, s := buf[..], screen;
      match c
      case '\n' =>
        NextLine(buf, info, font);
      case '\r' =>
        col := 0;
        screen := screen.(col := 0);
        Untouched(was, info, font, content, margin, s, screen);
      case '\U{8}' =>
        Backspace(buf, info, font);
      case _ =>
        if col >= cols {
          NextLine(buf, info, font);
        } else {
          Untouched(was, info, font, content, margin, s, s);
        }
        ghost var mid := buf[..];
        Print(buf, info, font, c);
        SameOutsideTrans(was, mid, buf[..], info, content);
    }

    method Backspace(buf: array<Byte>, info: Info, font: Font)
      requires Valid() && info.Valid() && Stored(content, info, buf.Length)
      requires rows > 0 && cols > 0
      modifies this, buf
      ensures Valid() && cursorVisible == old(cursorVisible)
      ensures screen == T.Step(old(screen), T.BACKSPACE)
      ensures SameOutside(old(buf[..]), buf[..], info, content)
      ensures old(Displays(buf[..], info, font) && !cursorVisible) ==> Displays(buf[..], info, font)
    {
      hide Shows;
      hide SameOutside;
      hide Stored;
      ghost var was, s := buf[..], screen;
      if col > 0 {
        col := col - 1;
        ClearChar(buf, info, col, row);
        screen := T.SetCell(screen, row, col, {}).(col := col);
        Cleared(was, buf[..], info, font, content, margin, s);
      } else {
        Untouched(was, info, font, content, margin, s, s);
      }
    }

    /** Strikes `c` in the cell at the cursor, which must not be past the end of the row. */
    method Print(buf: array<Byte>, info: Info, font: Font, c: char)
      requires Valid() && info.Valid() && Stored(content, info, buf.Length)
      requires rows > 0 && col < cols
      modifies this, buf
      ensures Valid() && cursorVisible == old(cursorVisible)
      ensures screen == T.SetCell(old(screen), old(row), old(col), old(screen.cells[row][col]) + {c}).(col := old(col) + 1)
      ensures SameOutside(old(buf[..]), buf[..], info, content)
      ensures old(Displays(buf[..], info, font) && !cursorVisible) ==> Displays(buf[..], info, font)
    {
      hide Shows;
      hide SameOutside;
      hide Stored;
      hide Painted;
      hide T.BlankFromCursor;
      ghost var was, s := buf[..], screen;
      DrawChar(buf, info, font, c, col, row);
      screen := T.SetCell(screen, row, col, screen.cells[row][col] + {c}).(col := col + 1);
      col := col + 1;
      Struck(was, buf[..], info, font, content, margin, s, c);
    }

    /** The cursor moves to the start of the next row, scrolling at the bottom. */
    method NextLine(buf: array<Byte>, info: Info, font: Font)
      requires Valid() && info.Valid() && Stored(content, info, buf.Length)
      requires rows > 0 && cols > 0
      modifies this, buf
      ensures Valid() && cursorVisible == old(cursorVisible)
      ensures screen == T.NextLine(old(screen))
      ensures SameOutside(old(buf[..]), buf[..], info, content)
      ensures old(Displays(buf[..], info, font) && !cursorVisible) ==> Displays(buf[..], info, font)
    {
      hide Shows;
      hide SameOutside;
      hide Scrolled;
      ghost var was, s := buf[..], screen;
      col := 0;
      row := row + 1;
      if row >= rows {
        ScrollUp(buf, info);
        ScrolledShows(was, buf[..], info, font, content, margin, s);
      } else {
        Untouched(was, info, font, content, margin, s, T.NextLine(s));
      }
      screen := T.NextLine(screen);
    }

    /** Moves pixel row `wy + FONT_HEIGHT` of the content to row `wy`, if the buffer holds both. */
    method ScrollRow(buf: array<Byte>, info: Info, wy: nat)
      requires info.Valid() && Stored(content, info, buf.Length)
      requires wy + FONT_HEIGHT < content.height
      modifies buf
      ensures RowShown(old(buf[..]), buf[..], info, content.x, content.y + wy,
                       old(buf[..]), info, content.x, content.y + wy + FONT_HEIGHT, content.width)
    {
      var srcY := content.y + wy + FONT_HEIGHT;
      var dstY := content.y + wy;
      if content.width > 0 {
        RowInside(content, info, buf.Length, srcY);
        RowInside(content, info, buf.Length, dstY);
      }
      CopyRow(buf, info, content.x, dstY, buf, info, content.x, srcY, content.width);
    }

    method ScrollUp(buf: array<Byte>, info: Info)
      requires info.Valid() && Stored(content, info, buf.Length)
      requires rows == content.height / FONT_HEIGHT
      modifies this`row, buf
      ensures rows == 0 ==> buf[..] == old(buf[..]) && row == old(row)
      ensures rows > 0 ==> Scrolled(old(buf[..]), buf[..], info, content) && row == rows - 1
    {
      if rows == 0 {
        return;
      }
      var contentYEnd := content.y + content.height;
      var maxCopyRows := Monus(content.height, FONT_HEIGHT);
      for wy := 0 to maxCopyRows
        invariant PartlyScrolled(old(buf[..]), buf[..], info, content, wy)
      {
        if content.y + wy + FONT_HEIGHT + 1 > contentYEnd {
          break;
        }
        ghost var mid := buf[..];
        ScrollRow(buf, info, wy);
        hide *;
        PartlyScrolledStep(old(buf[..]), mid, buf[..], info, content, wy);
      }
      ghost var moved := buf[..];
      var clearYStart := Monus(contentYEnd, FONT_HEIGHT);
      FillRect(buf, info, Rect(content.x, clearYStart, content.width, FONT_HEIGHT), BLACK);
      ScrollDone(old(buf[..]), moved, buf[..], info, content);
      row := rows - 1;
    }
  }

  /** The first `n` pixel rows of the content have been moved up. */
  ghost predicate PartlyScrolled(before: seq<Byte>, after: seq<Byte>, info: Info, content: Rect, n: nat)
    requires info.Valid()
  {
    && |after| == |before|
    && forall px: nat, py: nat {:trigger ReadPixel(after, info, px, py)} ::
         ReadPixel(after, info, px, py) ==
         if content.Contains(px, py) && py < content.y + n then ReadPixel(before, info, px, py + FONT_HEIGHT)
         else ReadPixel(before, info, px, py)
  }

  lemma PartlyScrolledStep(before: seq<Byte>, mid: seq<Byte>, after: seq<Byte>, info: Info, content: Rect, n: nat)
    requires info.Valid() && n + FONT_HEIGHT < content.height
    requires PartlyScrolled(before, mid, info, content, n)
    requires RowShown(mid, after, info, content.x, content.y + n,
                      mid, info, content.x, content.y + n + FONT_HEIGHT, content.width)
    ensures PartlyScrolled(before, after, info, content, n + 1)
  {
  }

  lemma ScrollDone(before: seq<Byte>, moved: seq<Byte>, after: seq<Byte>, info: Info, content: Rect)
    requires info.Valid() && Stored(content, info, |before|) && content.height >= FONT_HEIGHT
    requires PartlyScrolled(before, moved, info, content, content.height - FONT_HEIGHT)
    requires Painted(moved, after, info,
                     Box(Rect(content.x, content.y + content.height - FONT_HEIGHT, content.width, FONT_HEIGHT)), BLACK)
    ensures Scrolled(before, after, info, content)
  {
  }

  /** A stored row of pixels has all its bytes in the buffer, so the copy guards cannot fail. */
  lemma RowInside(area: Rect, info: Info, len: nat, y: nat)
    requires info.Valid() && Stored(area, info, len) && area.width > 0 && area.y <= y < area.y + area.height
    ensures area.x + area.width <= info.width && y < info.height
    ensures info.Offset(area.x, y) + area.width * info.bpp <= len
  {
    var last := area.x + area.width - 1;
    assert info.Has(len, last, y);
    ShiftedOffset(info, area.x, y, area.width - 1);
    assert (area.width - 1) * info.bpp + info.bpp == area.width * info.bpp;
  }

  lemma SameOutsideTrans(a: seq<Byte>, b: seq<Byte>, c: seq<Byte>, info: Info, area: Rect)
    requires info.Valid() && SameOutside(a, b, info, area) && SameOutside(b, c, info, area)
    ensures SameOutside(a, c, info, area)
  {
  }

  /** Moving the hidden cursor changes nothing that is shown. */
  lemma Untouched(buf: seq<Byte>, info: Info, font: Font, content: Rect, margin: nat, s: T.Screen, t: T.Screen)
    requires info.Valid() && s.Valid() && t.Valid() && s.cells == t.cells && s.rows == t.rows && s.cols == t.cols
    ensures SameOutside(buf, buf, info, content)
    ensures Shows(buf, info, font, content, margin, s, false) ==> Shows(buf, info, font, content, margin, t, false)
  {
  }

  /** Drawing a glyph over the cell at the cursor shows that cell with one more character struck. */
  lemma Struck(before: seq<Byte>, after: seq<Byte>, info: Info, font: Font, content: Rect, margin: nat,
               s: T.Screen, ch: char)
    requires info.Valid() && s.Valid() && Sized(s, content) && Stored(content, info, |before|)
    requires s.row < s.rows && s.col < s.cols
    requires Painted(before, after, info,
                     Text(font, [ch], content.x + s.col * FONT_WIDTH, content.y + s.row * FONT_HEIGHT), WHITE)
    ensures SameOutside(before, after, info, content)
    ensures Shows(before, info, font, content, margin, s, false) ==>
            Shows(after, info, font, content, margin,
                  T.SetCell(s, s.row, s.col, s.cells[s.row][s.col] + {ch}).(col := s.col + 1), false)
  {
    var s' := T.SetCell(s, s.row, s.col, s.cells[s.row][s.col] + {ch}).(col := s.col + 1);
    var text := Text(font, [ch], content.x + s.col * FONT_WIDTH, content.y + s.row * FONT_HEIGHT);
    forall px: nat, py: nat
      ensures Agrees(before, after, info, font, content, margin, s, s', px, py)
    {
      StruckPixel(font, content, s, ch, px, py);
      hide CellLit;
      hide ReadPixel;
    }
    AgreesEverywhere(before, after, info, font, content, margin, s, s');
  }

  /** At one pixel: no change outside the content, and a pixel that showed `s` shows `t`. */
  ghost predicate Agrees(before: seq<Byte>, after: seq<Byte>, info: Info, font: Font, content: Rect, margin: nat,
                         s: T.Screen, t: T.Screen, px: nat, py: nat)
    requires info.Valid() && s.Valid() && t.Valid()
  {
    && (!content.Contains(px, py) ==> ReadPixel(after, info, px, py) == ReadPixel(before, info, px, py))
    && (Widened(content, margin).Contains(px, py) && Shows(before, info, font, content, margin, s, false) ==>
          ReadPixel(after, info, px, py) ==
          if CellLit(t, font, px - content.x, py - content.y) then WHITE else BLACK)
  }

  lemma AgreesEverywhere(before: seq<Byte>, after: seq<Byte>, info: Info, font: Font, content: Rect, margin: nat,
                         s: T.Screen, t: T.Screen)
    requires info.Valid() && s.Valid() && t.Valid() && |after| == |before|
    requires forall px: nat, py: nat :: Agrees(before, after, info, font, content, margin, s, t, px, py)
    ensures SameOutside(before, after, info, content)
    ensures Shows(before, info, font, content, margin, s, false) ==>
            Shows(after, info, font, content, margin, t, false)
  {
    hide CellLit;
    hide ReadPixel;
    forall px: nat, py: nat | !content.Contains(px, py)
      ensures ReadPixel(after, info, px, py) == ReadPixel(before, info, px, py)
    {
      assert Agrees(before, after, info, font, content, margin, s, t, px, py);
    }
    if Shows(before, info, font, content, margin, s, false) {
      forall px: nat, py: nat | Widened(content, margin).Contains(px, py)
        ensures ReadPixel(after, info, px, py) ==
                if CellLit(t, font, px - content.x, py - content.y) then WHITE else BLACK
      {
        assert Agrees(before, after, info, font, content, margin, s, t, px, py);
      }
    }
  }

  lemma StruckPixel(font: Font, content: Rect, s: T.Screen, ch: char, px: nat, py: nat)
    requires s.Valid() && Sized(s, content) && s.row < s.rows && s.col < s.cols
    ensures var text := Text(font, [ch], content.x + s.col * FONT_WIDTH, content.y + s.row * FONT_HEIGHT);
            && (text.Covers(px, py) ==> content.Contains(px, py))
            && (CellLit(T.SetCell(s, s.row, s.col, s.cells[s.row][s.col] + {ch}).(col := s.col + 1), font,
                        px - content.x, py - content.y)
                <==> CellLit(s, font, px - content.x, py - content.y) || text.Covers(px, py))
  {
  }

  /** Blacking out the cell left of the cursor shows that cell blank. */
  lemma Cleared(before: seq<Byte>, after: seq<Byte>, info: Info, font: Font, content: Rect, margin: nat, s: T.Screen)
    requires info.Valid() && s.Valid() && Sized(s, content) && Stored(content, info, |before|)
    requires s.row < s.rows && s.col > 0
    requires Painted(before, after, info,
                     Box(Rect(content.x + (s.col - 1) * FONT_WIDTH, content.y + s.row * FONT_HEIGHT,
                              FONT_WIDTH, FONT_HEIGHT)), BLACK)
    ensures SameOutside(before, after, info, content)
    ensures Shows(before, info, font, content, margin, s, false) ==>
            Shows(after, info, font, content, margin,
                  T.SetCell(s, s.row, s.col - 1, {}).(col := s.col - 1), false)
  {
  }

  /** Moving the content's pixel rows up by one text line shows the scrolled grid, whatever the
      height of the strip below the last text row. */
  lemma ScrolledShows(before: seq<Byte>, after: seq<Byte>, info: Info, font: Font, content: Rect, margin: nat,
                      s: T.Screen)
    requires info.Valid() && s.Valid() && Sized(s, content) && s.rows > 0 && s.cols > 0 && s.row + 1 >= s.rows
    requires Scrolled(before, after, info, content)
    ensures SameOutside(before, after, info, content)
    ensures Shows(before, info, font, content, margin, s, false) ==>
            Shows(after, info, font, content, margin, T.NextLine(s), false)
  {
    forall px: nat, py: nat
      ensures Agrees(before, after, info, font, content, margin, s, T.NextLine(s), px, py)
    {
      ScrolledPixel(s, font, content, px, py);
      hide CellLit;
      hide ReadPixel;
      if content.Contains(px, py + FONT_HEIGHT) {
        var below: nat := py + FONT_HEIGHT;
        assert Widened(content, margin).Contains(px, below);
      }
    }
    AgreesEverywhere(before, after, info, font, content, margin, s, T.NextLine(s));
  }

  /** What scrolling the grid does to the lit pixels. */
  ghost predicate ScrolledLit(s: T.Screen, font: Font, content: Rect, px: nat, py: nat)
    requires s.Valid() && !s.Degenerate()
  {
    var lit := CellLit(T.NextLine(s), font, px - content.x, py - content.y);
    if !content.Contains(px, py) then !lit && !CellLit(s, font, px - content.x, py - content.y)
    else lit == (&& content.Contains(px, py + FONT_HEIGHT)
                 && CellLit(s, font, px - content.x, py + FONT_HEIGHT - content.y))
  }

  lemma BlankIsUnlit(font: Font, dx: int, dy: int)
    ensures !CharsLit({}, font, dx, dy)
  {
  }

  lemma ScrolledPixel(s: T.Screen, font: Font, content: Rect, px: nat, py: nat)
    requires s.Valid() && !s.Degenerate() && Sized(s, content) && s.row + 1 >= s.rows
    ensures ScrolledLit(s, font, content, px, py)
  {
    hide CharsLit;
    BlankIsUnlit(font, (px - content.x) % FONT_WIDTH, (py - content.y) % FONT_HEIGHT);
  }

  /** A blank cell at the cursor keeps the cursor column unlit, also just past the last column. */
  lemma CursorColumnUnlit(s: T.Screen, font: Font, content: Rect, px: nat, py: nat)
    requires s.Valid() && T.BlankFromCursor(s) && CursorAt(content, s.col, s.row).Contains(px, py)
    ensures !CellLit(s, font, px - content.x, py - content.y)
  {
  }

  lemma CursorInside(s: T.Screen, content: Rect, margin: nat, px: nat, py: nat)
    requires s.Valid() && !s.Degenerate() && Sized(s, content) && margin >= 1
    ensures CursorAt(content, s.col, s.row).Contains(px, py) ==> Widened(content, margin).Contains(px, py)
  {
  }

  lemma CursorShown(before: seq<Byte>, after: seq<Byte>, info: Info, font: Font, content: Rect, margin: nat,
                    s: T.Screen)
    requires info.Valid() && s.Valid() && !s.Degenerate() && Sized(s, content) && margin >= 1
    requires Stored(Widened(content, margin), info, |before|)
    requires Shows(before, info, font, content, margin, s, false)
    requires Painted(before, after, info, Box(CursorAt(content, s.col, s.row)), WHITE)
    ensures Shows(after, info, font, content, margin, s, true)
  {
  }

  lemma CursorHidden(before: seq<Byte>, after: seq<Byte>, info: Info, font: Font, content: Rect, margin: nat,
                     s: T.Screen)
    requires info.Valid() && s.Valid() && !s.Degenerate() && Sized(s, content) && margin >= 1
    requires Stored(Widened(content, margin), info, |before|) && T.BlankFromCursor(s)
    requires Shows(before, info, font, content, margin, s, true)
    requires Painted(before, after, info, Box(CursorAt(content, s.col, s.row)), BLACK)
    ensures Shows(after, info, font, content, margin, s, false)
  {
  }

  /** The stored pixels of `area` are black. */
  ghost predicate AllBlack(buf: seq<Byte>, info: Info, area: Rect)
    requires info.Valid()
  {
    forall px: nat, py: nat :: area.Contains(px, py) && info.Has(|buf|, px, py) ==> ReadPixel(buf, info, px, py) == BLACK
  }

  /** Showing and then hiding the text cursor restores every colour of the buffer exactly when the
      cursor's column was black before; no other state of the buffer survives it. */
  lemma CursorRoundTripIff(before: seq<Byte>, mid: seq<Byte>, after: seq<Byte>, info: Info, column: Rect)
    requires info.Valid()
    requires Painted(before, mid, info, Box(column), WHITE) && Painted(mid, after, info, Box(column), BLACK)
    ensures SameColors(before, after, info) <==> AllBlack(before, info, column)
  {
  }

  /** Any run of clears and characters on a console that displays its grid, with the text cursor
      hidden, leaves it displaying the resulting grid; without '\r' that is the grid of the
      overwriting terminal. */
  method Session(console: Console, buf: array<Byte>, info: Info, font: Font, ops: seq<T.Op>)
    requires console.Valid() && info.Valid() && Stored(console.content, info, buf.Length)
    requires !console.cursorVisible && console.Displays(buf[..], info, font)
    modifies console, buf
    ensures console.Valid() && !console.cursorVisible && console.Displays(buf[..], info, font)
    ensures console.screen == T.Play(old(console.screen), ops)
    ensures T.BlankFromCursor(old(console.screen)) && T.Put(T.RETURN) !in ops ==>
              T.BlankFromCursor(console.screen) && console.screen == T.OverwritePlay(old(console.screen), ops)
    ensures old(console.screen) == T.Blank(console.rows, console.cols) ==>
              console.rows > 0 && console.cols > 0 && T.Put(T.RETURN) !in ops ==>
                T.ShowsLines(console.screen, T.Lines(ops, console.cols))
    ensures SameOutside(old(buf[..]), buf[..], info, console.content)
  {
    hide Shows;
    hide Stored;
    hide T.ShowsLines;
    hide T.Blank;
    hide SameOutside;
    Untouched(buf[..], info, font, console.content, console.margin, console.screen, console.screen);
    assert ops[0..] == ops;
    for i := 0 to |ops|
      invariant console.Valid() && !console.cursorVisible && console.Displays(buf[..], info, font)
      invariant T.Play(console.screen, ops[i..]) == T.Play(old(console.screen), ops)
      invariant SameOutside(old(buf[..]), buf[..], info, console.content)
    {
      ghost var mid := buf[..];
      match ops[i] {
        case Put(c) => console.WriteChar(buf, info, font, c);
        case Clear => console.Clear(buf, info, font);
      }
      assert ops[i..][1..] == ops[i + 1..];
      SameOutsideTrans(old(buf[..]), mid, buf[..], info, console.content);
    }
    if T.BlankFromCursor(old(console.screen)) && T.Put(T.RETURN) !in ops {
      T.PlayIsOverwriting(old(console.screen), ops);
    }
    if old(console.screen) == T.Blank(console.rows, console.cols) && console.rows > 0 && console.cols > 0
       && T.Put(T.RETURN) !in ops {
      T.ScreenShowsLines(console.rows, console.cols, ops);
    }
  }

  /** After any '\r'-free session on a blank console, hiding the text cursor undoes showing
      it, including when the cursor stands just past the last column. */
  lemma HideUndoesShow(ops: seq<T.Op>, before: seq<Byte>, mid: seq<Byte>, after: seq<Byte>, info: Info, font: Font,
                       content: Rect, margin: nat, s: T.Screen)
    requires info.Valid() && margin >= 1 && T.Put(T.RETURN) !in ops
    requires s == T.Play(T.Blank(content.height / FONT_HEIGHT, content.width / FONT_WIDTH), ops) && !s.Degenerate()
    requires Shows(before, info, font, content, margin, s, false)
    requires Painted(before, mid, info, Box(CursorAt(content, s.col, s.row)), WHITE)
    requires Painted(mid, after, info, Box(CursorAt(content, s.col, s.row)), BLACK)
    ensures SameColors(before, after, info)
  {
    var column := CursorAt(content, s.col, s.row);
    T.PlayIsOverwriting(T.Blank(content.height / FONT_HEIGHT, content.width / FONT_WIDTH), ops);
    forall px: nat, py: nat | column.Contains(px, py) && info.Has(|before|, px, py)
      ensures ReadPixel(before, info, px, py) == BLACK
    {
      CursorColumnUnlit(s, font, content, px, py);
      CursorInside(s, content, margin, px, py);
    }
    CursorRoundTripIff(before, mid, after, info, column);
  }
}
