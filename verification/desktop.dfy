/** Consoles inside windows, and whole runs of the desktop: whatever is created, focused, written,
    clicked or redrawn, the frame buffer stays in step with the windows. */
module Desktop {
  import opened Prelude
  import opened Pixels
  import opened Drawing
  import opened Consoles
  import opened Compositor
  import opened WindowManagers
  import M = Mouse
  import T = Terminal

  /** Pixel columns between a window's content and its border. */
  const MARGIN := WINDOW_PADDING - 1

  /** The console occupies the window's content rectangle. */
  ghost predicate Hosts(w: Window, c: Console)
    reads c
  {
    c.Valid() && c.content == ContentRect(w.width, w.height) && c.margin == MARGIN
  }

  ghost function ConsolesOf(ws: set<Window>): set<Console>
    reads ws
  {
    set w | w in ws && w.console.Some? :: w.console.value
  }

  /** Every console fits its window, and no two windows share one. */
  ghost predicate Furnished(wm: WindowManager)
    reads wm, wm.Members(), ConsolesOf(wm.Members())
  {
    && (forall w :: w in wm.windows && w.console.Some? ==> Hosts(w, w.console.value))
    && (forall v, w :: v in wm.windows && w in wm.windows && v != w && v.console.Some? && w.console.Some? ==>
          v.console.value != w.console.value)
  }

  /** The window with this id, if there is one. */
  ghost function At(ws: seq<Window>, id: nat): set<Window> {
    var k := IndexOf(ws, id);
    if k >= 0 then {ws[k]} else {}
  }

  // ---------------------------------------------------------------------------
  // Chrome
  // ---------------------------------------------------------------------------

  lemma ContentStored(w: Window, screen: Info)
    requires w.Sound(screen)
    ensures Stored(ContentRect(w.width, w.height), w.info, w.buf.Length)
  {
    forall px: nat, py: nat | ContentRect(w.width, w.height).Contains(px, py)
      ensures w.info.Has(w.buf.Length, px, py)
    {
      FullBufferHasPixel(w.info, px, py);
    }
  }

  /** The pixels of `area` that the window has are below its title bar and inside its border. */
  ghost predicate NoChrome(width: nat, height: nat, area: Rect) {
    forall px, py :: area.Contains(px, py) && px < width && py < height ==> Interior(width, height).Contains(px, py)
  }

  /** Painting that stays clear of a window's title bar and border leaves all chrome as it was. */
  lemma ChromeSurvives(was: map<Window, seq<Byte>>, now: map<Window, seq<Byte>>, font: Font, focused: Option<nat>,
                       w: Window, screen: Info, area: Rect)
    requires ChromeMatches(was, font, focused) && w in was && w in now && now == was[w := now[w]]
    requires w.Sound(screen) && w.info.Valid() && SameOutside(was[w], now[w], w.info, area)
    requires NoChrome(w.width, w.height, area)
    ensures ChromeMatches(now, font, focused)
  {
    var isFocused := focused == Some(w.id);
    var strokes := ChromeStrokes(w.width, w.height, w.title, font, isFocused);
    forall px: nat, py: nat | w.info.Has(|now[w]|, px, py) && TopStroke(strokes, px, py).Some?
      ensures ReadPixel(now[w], w.info, px, py) == Shade(w.info.format, TopStroke(strokes, px, py).value)
    {
      if area.Contains(px, py) {
        ChromeSparesContent(w.Showing(now[w]), font, isFocused, px, py);
      }
      assert ReadPixel(now[w], w.info, px, py) == ReadPixel(was[w], w.info, px, py);
      hide ReadPixel;
      hide ChromeStrokes;
      hide TopStroke;
    }
    hide ReadPixel;
    hide ChromeStrokes;
    hide TopStroke;
  }

  /** A window so small that the text cursor of a console without a cell reaches the border. */
  predicate Cramped(width: nat, height: nat) {
    var top := Min(TITLE_BAR_HEIGHT, height) + WINDOW_PADDING;
    width > WINDOW_PADDING && height > top && (width == WINDOW_PADDING + 1 || height <= top + FONT_HEIGHT)
  }

  /** The text cursor stays clear of the chrome exactly in windows that are not cramped. */
  lemma CursorSparesChromeIff(w: Window, c: Console)
    requires Hosts(w, c)
    ensures NoChrome(w.width, w.height, CursorAt(c.content, c.col, c.row)) <==> !Cramped(w.width, w.height)
    ensures Cramped(w.width, w.height) ==>
              CursorAt(c.content, c.col, c.row) == CursorAt(ContentRect(w.width, w.height), 0, 0)
  {
    var column := CursorAt(c.content, c.col, c.row);
    if Cramped(w.width, w.height) {
      var px, py := column.x, if w.width == WINDOW_PADDING + 1 then column.y else w.height - 1;
      assert column.Contains(px, py) && !Interior(w.width, w.height).Contains(px, py);
    }
  }

  /** In a cramped window, showing the text cursor does damage the border. */
  lemma CrampedCursorHitsBorder(w: Window, screen: Info, font: Font, focused: bool, before: seq<Byte>, after: seq<Byte>)
    requires w.Sound(screen) && w.info.Valid() && |before| == w.buf.Length
    requires Cramped(w.width, w.height)
    requires Painted(before, after, w.info, Box(CursorAt(ContentRect(w.width, w.height), 0, 0)), WHITE)
    ensures !HasChrome(w.Showing(after), w.info, font, focused)
  {
    var column := CursorAt(ContentRect(w.width, w.height), 0, 0);
    var px, py := column.x, if w.width == WINDOW_PADDING + 1 then column.y else w.height - 1;
    assert column.Contains(px, py);
    FullBufferHasPixel(w.info, px, py);
    BorderPixel(w.Showing(after), font, focused, px, py);
    assert ReadPixel(after, w.info, px, py) == Shade(w.info.format, WHITE);
    hide ReadPixel;
    hide ChromeStrokes;
    hide TopStroke;
  }

  /** The text cursor and all chrome: it stays as it was unless the window is cramped. */
  lemma CursorAndChrome(was: map<Window, seq<Byte>>, now: map<Window, seq<Byte>>, font: Font, focused: Option<nat>,
                        w: Window, screen: Info, column: Rect)
    requires w in was && w in now && now == was[w := now[w]] && |was[w]| == w.buf.Length
    requires w.Sound(screen) && w.info.Valid() && SameOutside(was[w], now[w], w.info, column)
    requires NoChrome(w.width, w.height, column) <==> !Cramped(w.width, w.height)
    requires Cramped(w.width, w.height) ==> column == CursorAt(ContentRect(w.width, w.height), 0, 0)
    ensures ChromeMatches(was, font, focused) && !Cramped(w.width, w.height) ==> ChromeMatches(now, font, focused)
    ensures Cramped(w.width, w.height) && Painted(was[w], now[w], w.info, Box(column), WHITE) ==>
              !ChromeMatches(now, font, focused)
  {
    hide NoChrome;
    hide Cramped;
    hide Painted;
    hide SameOutside;
    hide CursorAt;
    hide ContentRect;
    if Cramped(w.width, w.height) {
      if Painted(was[w], now[w], w.info, Box(column), WHITE) {
        CrampedCursorHitsBorder(w, screen, font, focused == Some(w.id), was[w], now[w]);
        hide HasChrome;
      }
    } else if ChromeMatches(was, font, focused) {
      hide ChromeMatches;
      ChromeSurvives(was, now, font, focused, w, screen, column);
    }
  }

  /** A border pixel below the title bar. */
  lemma BorderPixel(v: View, font: Font, focused: bool, px: nat, py: nat)
    requires px < v.width && py < v.height && py >= TITLE_BAR_HEIGHT && (px == v.width - 1 || py == v.height - 1)
    ensures TopStroke(ChromeStrokes(v.width, v.height, v.title, font, focused), px, py) == Some(BORDER_COLOR)
  {
    var strokes := ChromeStrokes(v.width, v.height, v.title, font, focused);
    assert strokes == strokes[..2] + strokes[2..];
    TopStrokeConcat(strokes[..2], strokes[2..], px, py);
    NoStroke(strokes[2..], px, py);
    assert strokes[..2][1] == Stroke(Outline(0, 0, v.width - 1, v.height - 1), BORDER_COLOR);
  }

  // ---------------------------------------------------------------------------
  // What the consoles show
  // ---------------------------------------------------------------------------

  /** A window with room for at least one character cell. */
  predicate Roomy(width: nat, height: nat) {
    ContentRect(width, height).width >= FONT_WIDTH && ContentRect(width, height).height >= FONT_HEIGHT
  }

  /** That is, of at least 20 by 52 pixels; its console has a row and a column then. */
  lemma RoomyIs(width: nat, height: nat)
    ensures Roomy(width, height) <==> width >= 20 && height >= 52
    ensures Roomy(width, height) <==>
            ContentRect(width, height).width / FONT_WIDTH > 0 && ContentRect(width, height).height / FONT_HEIGHT > 0
  {
  }

  /** What a console claims to show. */
  datatype Panel = Panel(screen: T.Screen, cursor: bool)

  ghost function PanelOf(console: Option<Console>): Option<Panel>
    reads if console.Some? then {console.value} else {}
  {
    match console
    case None => None
    case Some(c) => Some(Panel(c.screen, c.cursorVisible))
  }

  /** The window's pixels show its console's grid and text cursor on black; without a console they are black. */
  ghost predicate Reads(width: nat, height: nat, info: Info, pixels: seq<Byte>, font: Font, panel: Option<Panel>) {
    info.Valid() && Roomy(width, height) ==>
      match panel
      case None => BlackInside(pixels, info, Interior(width, height))
      case Some(p) =>
        && p.screen.Valid() && T.BlankFromCursor(p.screen)
        && Shows(pixels, info, font, ContentRect(width, height), MARGIN, p.screen, p.cursor)
  }

  ghost predicate Legible(w: Window, font: Font)
    reads w, w.buf, if w.console.Some? then {w.console.value} else {}
  {
    Reads(w.width, w.height, w.info, w.buf[..], font, PanelOf(w.console))
  }

  /** Neither a console nor one whose text cursor is shown. */
  ghost predicate Hidden(w: Window)
    reads w, if w.console.Some? then {w.console.value} else {}
  {
    w.console.Some? ==> !w.console.value.cursorVisible
  }

  /** Repainting chrome does not disturb what a console shows. */
  lemma ReadsKept(width: nat, height: nat, info: Info, before: seq<Byte>, after: seq<Byte>, font: Font,
                  panel: Option<Panel>)
    requires ContentKept(before, after, info, Interior(width, height))
    requires Reads(width, height, info, before, font, panel)
    ensures Reads(width, height, info, after, font, panel)
  {
    if Roomy(width, height) {
      WidenedInInterior(width, height);
    }
    hide ReadPixel;
    hide CellLit;
    hide Interior;
    hide ContentRect;
    hide CursorAt;
    hide T.BlankFromCursor;
  }

  lemma WidenedInInterior(width: nat, height: nat)
    requires Roomy(width, height)
    ensures forall px, py :: Widened(ContentRect(width, height), MARGIN).Contains(px, py) ==>
              Interior(width, height).Contains(px, py)
  {
  }

  /** Right of the content all is black, unless a text cursor is shown there. */
  lemma StripBlack(width: nat, height: nat, info: Info, pixels: seq<Byte>, font: Font, panel: Option<Panel>)
    requires info.Valid() && Roomy(width, height) && Reads(width, height, info, pixels, font, panel)
    requires panel.Some? ==> !panel.value.cursor && Sized(panel.value.screen, ContentRect(width, height))
    ensures var content := ContentRect(width, height);
            forall px: nat, py: nat :: Widened(content, MARGIN).Contains(px, py) && !content.Contains(px, py) ==>
              ReadPixel(pixels, info, px, py) == BLACK
  {
    WidenedInInterior(width, height);
    hide ReadPixel;
    hide CharsLit;
    hide Interior;
  }

  lemma RoomyFits(w: Window, c: Console, screen: Info)
    requires Hosts(w, c) && w.Sound(screen) && w.info.Valid() && Roomy(w.width, w.height)
    ensures c.CursorFits(w.info, w.buf.Length)
  {
    WidenedInInterior(w.width, w.height);
    forall px: nat, py: nat | Widened(c.content, c.margin).Contains(px, py)
      ensures w.info.Has(w.buf.Length, px, py)
    {
      FullBufferHasPixel(w.info, px, py);
    }
  }

  /** A legible window with a hidden text cursor is what a shell needs to start with. */
  lemma ShellCanStart(w: Window, c: Console, screen: Info, font: Font)
    requires w.Sound(screen) && w.info.Valid() && w.console == Some(c) && Hosts(w, c)
    requires Roomy(w.width, w.height) && Legible(w, font)
    ensures c.CursorFits(w.info, w.buf.Length) && T.BlankFromCursor(c.screen) && c.Displays(w.buf[..], w.info, font)
  {
    RoomyFits(w, c, screen);
  }

  // ---------------------------------------------------------------------------
  // Console calls
  // ---------------------------------------------------------------------------

  function ScreenAfter(s: T.Screen, text: Option<string>): T.Screen
    requires s.Valid()
  {
    match text
    case Some(t) => T.Run(s, t)
    case None => T.Blank(s.rows, s.cols)
  }

  /** The text has arrived in the grid, and the text cursor was not touched. */
  ghost predicate Arrived(before: Option<Panel>, after: Option<Panel>, text: Option<string>) {
    match before
    case None => after == None
    case Some(p) => p.screen.Valid() && after == Some(Panel(ScreenAfter(p.screen, text), p.cursor))
  }

  /** No '\r' is written. */
  predicate Plain(text: Option<string>) {
    text.Some? ==> T.RETURN !in text.value
  }

  /** A text is played character by character, no text is a clear. */
  lemma ScreenAfterIs(s: T.Screen, text: string)
    requires s.Valid()
    ensures ScreenAfter(s, Some(text)) == T.Play(s, T.Puts(text))
    ensures ScreenAfter(s, None) == T.Play(s, [T.Clear])
  {
    T.RunIsPlay(s, text);
    T.PlayOne(s, T.Clear);
  }

  lemma ScreenStaysBlank(s: T.Screen, text: Option<string>)
    requires s.Valid() && T.BlankFromCursor(s) && Plain(text)
    ensures ScreenAfter(s, text).Valid() && T.BlankFromCursor(ScreenAfter(s, text))
  {
    if text.Some? {
      T.RunKeepsBlank(s, text.value);
    }
  }

  /** One call on the console of a window: the whole text is written, or the console is cleared. */
  method DrawInto(wm: WindowManager, win: Window, console: Console, text: Option<string>)
    requires wm.Sound() && win in wm.windows && win.Sound(wm.screen) && win.info.Valid() && Hosts(win, console)
    requires Stored(console.content, win.info, win.buf.Length)
    requires forall w :: w in wm.windows && w != win ==> w.buf != win.buf
    modifies console, win.buf
    ensures wm.Sound() && wm.Pictures() == old(wm.Pictures())[win := win.buf[..]] && Hosts(win, console)
    ensures SameOutside(old(win.buf[..]), win.buf[..], win.info, console.content)
    ensures console.screen == ScreenAfter(old(console.screen), text)
    ensures console.cursorVisible == old(console.cursorVisible)
    ensures old(console.Displays(win.buf[..], win.info, wm.font) && !console.cursorVisible) ==>
              console.Displays(win.buf[..], win.info, wm.font)
  {
    hide Shows;
    hide SameOutside;
    hide Stored;
    match text {
      case Some(s) => console.WriteStr(win.buf, win.info, wm.font, s);
      case None => console.Clear(win.buf, win.info, wm.font);
    }
  }

  /** Drawing or erasing the text cursor. */
  method SwitchCursor(wm: WindowManager, win: Window, console: Console, show: bool)
    requires wm.Sound() && win in wm.windows && win.Sound(wm.screen) && win.info.Valid() && Hosts(win, console)
    requires forall w :: w in wm.windows && w != win ==> w.buf != win.buf
    modifies console`cursorVisible, win.buf
    ensures wm.Sound() && wm.Pictures() == old(wm.Pictures())[win := win.buf[..]]
    ensures Hosts(win, console) && console.cursorVisible == show
    ensures SameOutside(old(win.buf[..]), win.buf[..], win.info, CursorAt(console.content, console.col, console.row))
    ensures show && !old(console.cursorVisible) ==>
              Painted(old(win.buf[..]), win.buf[..], win.info,
                      Box(CursorAt(console.content, console.col, console.row)), WHITE)
    ensures console.CursorFits(win.info, win.buf.Length) && T.BlankFromCursor(console.screen)
            && old(console.Displays(win.buf[..], win.info, wm.font)) ==>
              console.Displays(win.buf[..], win.info, wm.font)
  {
    ghost var was := win.buf[..];
    hide Painted;
    hide SameOutside;
    hide Shows;
    hide T.BlankFromCursor;
    if show {
      console.DrawCursor(win.buf, win.info, wm.font);
      CursorOnly(was, win.buf[..], win.info, CursorAt(console.content, console.col, console.row), WHITE);
    } else {
      console.EraseCursor(win.buf, win.info, wm.font);
      CursorOnly(was, win.buf[..], win.info, CursorAt(console.content, console.col, console.row), BLACK);
    }
  }

  lemma CursorOnly(before: seq<Byte>, after: seq<Byte>, info: Info, column: Rect, c: Color)
    requires info.Valid() && (after == before || Painted(before, after, info, Box(column), c))
    ensures SameOutside(before, after, info, column)
  {
  }

  /** The call on one window's console: the text arrives in the grid, every window keeps its chrome,
      and what could be read stays readable if the text cursor was hidden and no '\r' is written. */
  method DrawAt(wm: WindowManager, win: Window, console: Console, text: Option<string>)
    requires wm.Sound() && win in wm.windows && win.console == Some(console) && Hosts(win, console)
    modifies console, win.buf, win`dirty
    ensures wm.Sound() && Hosts(win, console) && (old(wm.ChromeRight()) ==> wm.ChromeRight())
    ensures win.dirty && Arrived(old(PanelOf(win.console)), PanelOf(win.console), text)
    ensures old(Legible(win, wm.font)) && !console.cursorVisible && Plain(text) ==>
              Legible(win, wm.font)
  {
    hide Shows;
    hide SameOutside;
    hide ChromeMatches;
    hide Stored;
    hide Registered;
    hide ContentRect;
    hide ScreenAfter;
    hide T.Screen.Valid;
    hide T.BlankFromCursor;
    ghost var was, s := wm.Pictures(), console.screen;
    OwnBuffer(wm.windows, wm.screen, wm.nextId, win);
    ContentStored(win, wm.screen);
    DrawInto(wm, win, console, text);
    ghost var now := wm.Pictures();
    assert now == was[win := now[win]];
    if ChromeMatches(was, wm.font, wm.focused) {
      ContentSparesChrome(win.width, win.height);
      ChromeSurvives(was, now, wm.font, wm.focused, win, wm.screen, ContentRect(win.width, win.height));
    }
    if T.BlankFromCursor(s) && Plain(text) {
      ScreenStaysBlank(s, text);
    }
    win.dirty := true;
  }

  /** The same for a window that may have no console; then nothing happens. */
  method DrawOn(wm: WindowManager, win: Window, text: Option<string>)
    requires wm.Sound() && Furnished(wm) && win in wm.windows
    modifies ConsolesOf({win}), win.buf, win`dirty
    ensures wm.Sound() && Furnished(wm) && (win.console.Some? ==> win.dirty)
    ensures old(wm.ChromeRight()) ==> wm.ChromeRight()
    ensures Arrived(old(PanelOf(win.console)), PanelOf(win.console), text)
    ensures old(Legible(win, wm.font) && Hidden(win)) && Plain(text) ==> Legible(win, wm.font)
    ensures forall v :: v in wm.windows && v != win ==>
              (old(Legible(v, wm.font)) ==> Legible(v, wm.font)) && (old(Hidden(v)) ==> Hidden(v))
  {
    hide Hosts;
    hide Legible;
    hide Plain;
    hide ChromeMatches;
    hide Registered;
    OwnBuffer(wm.windows, wm.screen, wm.nextId, win);
    match win.console {
      case Some(c) => DrawAt(wm, win, c, text);
      case None =>
    }
  }

  lemma ContentSparesChrome(width: nat, height: nat)
    ensures NoChrome(width, height, ContentRect(width, height))
  {
  }

  lemma NotShared(ws: seq<Window>, screen: Info, nextId: nat, k: nat)
    requires Registered(ws, screen, nextId) && k < |ws|
    ensures forall i :: 0 <= i < |ws| && i != k ==> ws[i] != ws[k] && ws[i].id != ws[k].id && ws[i].buf != ws[k].buf
  {
  }

  /** console_write, and console_clear if there is no text. An unknown window, or one without a console,
      is left alone; a composite becomes due in any case. */
  method ConsoleDraw(wm: WindowManager, id: nat, text: Option<string>)
    requires wm.Sound() && Furnished(wm)
    modifies ConsolesOf(At(wm.windows, id)), BufsOf(At(wm.windows, id)), At(wm.windows, id)`dirty, wm`needsComposite
    ensures wm.Sound() && Furnished(wm) && wm.needsComposite && (old(wm.ChromeRight()) ==> wm.ChromeRight())
    ensures var k := IndexOf(wm.windows, id);
            k >= 0 ==>
              var w := wm.windows[k];
              && Arrived(old(PanelOf(w.console)), PanelOf(w.console), text) && (w.console.Some? ==> w.dirty)
              && (old(Legible(w, wm.font) && Hidden(w)) && Plain(text) ==> Legible(w, wm.font))
    ensures forall i :: 0 <= i < |wm.windows| && i != IndexOf(wm.windows, id) ==>
              var w := wm.windows[i];
              (old(Legible(w, wm.font)) ==> Legible(w, wm.font)) && (old(Hidden(w)) ==> Hidden(w))
  {
    hide Hosts;
    hide Legible;
    hide Plain;
    hide Arrived;
    hide PanelOf;
    hide WindowManager.ChromeRight;
    hide Registered;
    hide IndexOf;
    var k := wm.Position(id);
    if k >= 0 {
      NotShared(wm.windows, wm.screen, wm.nextId, k);
      DrawOn(wm, wm.windows[k], text);
    }
    wm.RequestComposite();
  }

  /** The text cursor is shown or not, as asked for, and the grid was not touched. */
  ghost predicate Switched(before: Option<Panel>, after: Option<Panel>, show: bool) {
    match before
    case None => after == None
    case Some(p) => after == Some(Panel(p.screen, show))
  }

  method CursorSwitchedAt(wm: WindowManager, win: Window, console: Console, show: bool)
    requires wm.Sound() && win in wm.windows && win.console == Some(console) && Hosts(win, console)
    modifies console`cursorVisible, win.buf, win`dirty
    ensures wm.Sound() && Hosts(win, console) && win.dirty
    ensures Switched(old(PanelOf(win.console)), PanelOf(win.console), show)
    ensures old(wm.ChromeRight()) && !Cramped(win.width, win.height) ==> wm.ChromeRight()
    ensures show && old(Hidden(win)) && Cramped(win.width, win.height) ==> !wm.ChromeRight()
    ensures old(Legible(win, wm.font)) ==> Legible(win, wm.font)
  {
    hide SameOutside;
    hide ChromeMatches;
    hide Registered;
    hide NoChrome;
    hide CursorAt;
    hide ContentRect;
    hide Cramped;
    hide Painted;
    hide Reads;
    hide Hosts;
    ghost var was := wm.Pictures();
    ghost var column := CursorAt(console.content, console.col, console.row);
    OwnBuffer(wm.windows, wm.screen, wm.nextId, win);
    CursorSparesChromeIff(win, console);
    SwitchLegibly(wm, win, console, show);
    assert wm.Pictures() == was[win := wm.Pictures()[win]];
    CursorAndChrome(was, wm.Pictures(), wm.font, wm.focused, win, wm.screen, column);
    win.dirty := true;
  }

  /** What could be read stays readable. */
  method SwitchLegibly(wm: WindowManager, win: Window, console: Console, show: bool)
    requires wm.Sound() && win in wm.windows && win.Sound(wm.screen) && win.info.Valid() && Hosts(win, console)
    requires win.console == Some(console) && forall w :: w in wm.windows && w != win ==> w.buf != win.buf
    modifies console`cursorVisible, win.buf
    ensures wm.Sound() && wm.Pictures() == old(wm.Pictures())[win := win.buf[..]]
    ensures Hosts(win, console) && console.cursorVisible == show
    ensures SameOutside(old(win.buf[..]), win.buf[..], win.info, CursorAt(console.content, console.col, console.row))
    ensures show && !old(console.cursorVisible) ==>
              Painted(old(win.buf[..]), win.buf[..], win.info,
                      Box(CursorAt(console.content, console.col, console.row)), WHITE)
    ensures old(Legible(win, wm.font)) ==> Legible(win, wm.font)
  {
    hide Shows;
    hide SameOutside;
    hide Registered;
    hide CursorAt;
    hide ContentRect;
    hide Painted;
    hide Stored;
    hide T.Screen.Valid;
    hide T.BlankFromCursor;
    hide Roomy;
    if Roomy(win.width, win.height) {
      RoomyFits(win, console, wm.screen);
    }
    SwitchCursor(wm, win, console, show);
  }

  /** The same for a window that may have no console; then nothing happens. */
  method CursorSwitchedOn(wm: WindowManager, win: Window, show: bool)
    requires wm.Sound() && Furnished(wm) && win in wm.windows
    modifies ConsolesOf({win}), win.buf, win`dirty
    ensures wm.Sound() && Furnished(wm) && (win.console.Some? ==> win.dirty)
    ensures Switched(old(PanelOf(win.console)), PanelOf(win.console), show)
    ensures old(wm.ChromeRight()) && (win.console.Some? ==> !Cramped(win.width, win.height)) ==> wm.ChromeRight()
    ensures show && win.console.Some? && old(Hidden(win)) && Cramped(win.width, win.height) ==> !wm.ChromeRight()
    ensures old(Legible(win, wm.font)) ==> Legible(win, wm.font)
    ensures forall v :: v in wm.windows && v != win ==>
              (old(Legible(v, wm.font)) ==> Legible(v, wm.font)) && (old(Hidden(v)) ==> Hidden(v))
  {
    hide Hosts;
    hide Legible;
    hide ChromeMatches;
    hide Registered;
    hide Cramped;
    OwnBuffer(wm.windows, wm.screen, wm.nextId, win);
    match win.console {
      case Some(c) => CursorSwitchedAt(wm, win, c, show);
      case None =>
    }
  }

  /** console_show_cursor and console_hide_cursor. What could be read stays readable; the chrome stays as
      it was unless the window is cramped, in which case showing the text cursor damages it. */
  method ConsoleCursor(wm: WindowManager, id: nat, show: bool)
    requires wm.Sound() && Furnished(wm)
    modifies ConsolesOf(At(wm.windows, id)), BufsOf(At(wm.windows, id)), At(wm.windows, id)`dirty, wm`needsComposite
    ensures wm.Sound() && Furnished(wm) && wm.needsComposite
    ensures var k := IndexOf(wm.windows, id);
            if k < 0 then old(wm.ChromeRight()) ==> wm.ChromeRight()
            else
              var w := wm.windows[k];
              && Switched(old(PanelOf(w.console)), PanelOf(w.console), show) && (w.console.Some? ==> w.dirty)
              && (old(Legible(w, wm.font)) ==> Legible(w, wm.font))
              && (old(wm.ChromeRight()) && (w.console.Some? ==> !Cramped(w.width, w.height)) ==> wm.ChromeRight())
              && (show && w.console.Some? && old(Hidden(w)) && Cramped(w.width, w.height) ==> !wm.ChromeRight())
    ensures forall i :: 0 <= i < |wm.windows| && i != IndexOf(wm.windows, id) ==>
              var w := wm.windows[i];
              (old(Legible(w, wm.font)) ==> Legible(w, wm.font)) && (old(Hidden(w)) ==> Hidden(w))
  {
    hide Hosts;
    hide Legible;
    hide Switched;
    hide PanelOf;
    hide Hidden;
    hide WindowManager.ChromeRight;
    hide Registered;
    hide Cramped;
    hide IndexOf;
    var k := wm.Position(id);
    if k >= 0 {
      NotShared(wm.windows, wm.screen, wm.nextId, k);
      CursorSwitchedOn(wm, wm.windows[k], show);
    }
    wm.RequestComposite();
  }

  /** A blank console for one window. */
  method NewConsole(win: Window, screen: Info, font: Font) returns (console: Console)
    requires win.Sound(screen) && win.info.Valid() && (win.console.Some? ==> Hosts(win, win.console.value))
    modifies win.buf
    ensures fresh(console) && Hosts(win, console) && !console.cursorVisible
    ensures console.screen == T.Blank(console.rows, console.cols)
    ensures SameOutside(old(win.buf[..]), win.buf[..], win.info, ContentRect(win.width, win.height))
    ensures old(Legible(win, font) && Hidden(win)) ==>
              Reads(win.width, win.height, win.info, win.buf[..], font, Some(Panel(console.screen, false)))
  {
    hide Shows;
    hide SameOutside;
    hide ContentRect;
    hide Interior;
    hide Stored;
    ContentStored(win, screen);
    if Legible(win, font) && Hidden(win) && Roomy(win.width, win.height) {
      StripBlack(win.width, win.height, win.info, win.buf[..], font, PanelOf(win.console));
    }
    ghost var readable := Legible(win, font) && Hidden(win) && Roomy(win.width, win.height);
    console := new Console(win.buf, win.info, ContentRect(win.width, win.height), MARGIN);
    assert T.BlankFromCursor(console.screen);
    assert readable ==> console.Displays(win.buf[..], win.info, font);
  }

  method InstallConsole(wm: WindowManager, win: Window)
    requires wm.Sound() && win in wm.windows && (win.console.Some? ==> Hosts(win, win.console.value))
    modifies win`console, win.buf
    ensures wm.Sound() && (old(wm.ChromeRight()) ==> wm.ChromeRight())
    ensures win.console.Some? && Hosts(win, win.console.value) && fresh(win.console.value) && !win.console.value.cursorVisible
    ensures win.console.value.screen == T.Blank(win.console.value.rows, win.console.value.cols)
    ensures old(Legible(win, wm.font) && Hidden(win)) ==> Legible(win, wm.font)
  {
    hide SameOutside;
    hide ChromeMatches;
    hide Registered;
    hide ContentRect;
    hide Hidden;
    hide Reads;
    hide Hosts;
    ghost var was := wm.Pictures();
    OwnBuffer(wm.windows, wm.screen, wm.nextId, win);
    var console := NewConsole(win, wm.screen, wm.font);
    win.console := Some(console);
    assert wm.Pictures() == was[win := wm.Pictures()[win]];
    if ChromeMatches(was, wm.font, wm.focused) {
      ContentSparesChrome(win.width, win.height);
      ChromeSurvives(was, wm.Pictures(), wm.font, wm.focused, win, wm.screen, ContentRect(win.width, win.height));
    }
  }

  /** init_console; it does not make a composite due. */
  method InitConsole(wm: WindowManager, id: nat)
    requires wm.Sound() && Furnished(wm)
    modifies At(wm.windows, id)`console, BufsOf(At(wm.windows, id))
    ensures wm.Sound() && Furnished(wm) && (old(wm.ChromeRight()) ==> wm.ChromeRight())
    ensures var k := IndexOf(wm.windows, id);
            k >= 0 ==>
              var w := wm.windows[k];
              && w.console.Some? && fresh(w.console.value) && !w.console.value.cursorVisible
              && w.console.value.screen == T.Blank(w.console.value.rows, w.console.value.cols)
              && (old(Legible(w, wm.font) && Hidden(w)) ==> Legible(w, wm.font))
    ensures forall i :: 0 <= i < |wm.windows| && i != IndexOf(wm.windows, id) ==>
              var w := wm.windows[i];
              (old(Legible(w, wm.font)) ==> Legible(w, wm.font)) && (old(Hidden(w)) ==> Hidden(w))
  {
    hide Hosts;
    hide Legible;
    hide Hidden;
    hide ChromeMatches;
    hide Registered;
    hide IndexOf;
    var k := wm.Position(id);
    if k >= 0 {
      NotShared(wm.windows, wm.screen, wm.nextId, k);
      InstallConsole(wm, wm.windows[k]);
    }
  }

  // ---------------------------------------------------------------------------
  // Whole runs
  // ---------------------------------------------------------------------------

  /** What can happen to the desktop. */
  datatype Action =
    | Create(x: nat, y: nat, width: nat, height: nat, title: seq<Byte>)
    | Init(id: nat)
    | Write(id: nat, text: string)
    | Clear(id: nat)
    | Cursor(id: nat, show: bool)
    | Focus(id: nat)
    | Dirty(id: nat)
    | Request
    | Move(event: M.MouseEvent)
    | Redraw

  /** What the actions alone tell: whether a composite is pending for sure, whether none is for sure, and
      in which windows a text cursor may be shown. */
  datatype Known = Known(pending: bool, idle: bool, shown: set<nat>)

  function Learn(k: Known, a: Action): Known {
    match a
    case Cursor(id, show) => Known(true, false, if show then k.shown + {id} else k.shown - {id})
    case Redraw => k.(pending := false, idle := true)
    case Move(event) => k.(idle := k.idle && !event.left)
    case Init(_) => k.(idle := false)
    case Focus(_) => k.(idle := false)
    case _ => k.(pending := true, idle := false)
  }

  function LearnAll(k: Known, actions: seq<Action>): Known {
    if actions == [] then k else Learn(LearnAll(k, actions[..|actions| - 1]), actions[|actions| - 1])
  }

  /** init_console draws without making a composite due, so one has to be pending. */
  predicate Proper(k: Known, a: Action) {
    a.Init? ==> k.pending
  }

  /** Consoles are only drawn on while their text cursor is hidden, and without '\r'. */
  predicate Tidy(k: Known, a: Action) {
    match a
    case Init(id) => id !in k.shown
    case Write(id, text) => id !in k.shown && T.RETURN !in text
    case Clear(id) => id !in k.shown
    case _ => true
  }

  predicate Spacious(a: Action) {
    a.Create? ==> !Cramped(a.width, a.height)
  }

  /** The invariant of all runs; `cs` are the consoles in use. */
  ghost predicate Steady(wm: WindowManager, fb: array<Byte>, k: Known, cs: set<Console>)
    reads wm, wm.cursor, wm.cursor.savedBg, wm.bgCache, wm.Bufs(), wm.Members(), ConsolesOf(wm.Members()), fb
  {
    && wm.Sound() && Furnished(wm) && wm.Separate(fb) && wm.InSync(fb) && (k.pending ==> wm.needsComposite)
    && (k.idle ==> !wm.needsComposite)
    && forall w :: w in wm.windows && w.console.Some? ==> w.console.value in cs
  }

  /** Every window's chrome is right and stays out of reach of the text cursor. */
  ghost predicate Chromed(wm: WindowManager)
    reads wm, wm.Bufs()
  {
    wm.ChromeRight() && forall w :: w in wm.windows ==> !Cramped(w.width, w.height)
  }

  /** Every console can be read, and text cursors are shown at most where they may be. */
  ghost predicate Neat(wm: WindowManager, k: Known)
    reads wm, wm.Members(), wm.Bufs(), ConsolesOf(wm.Members())
  {
    forall w :: w in wm.windows ==> Legible(w, wm.font) && (w.id !in k.shown ==> Hidden(w))
  }

  lemma BlankIsLegible(w: Window, font: Font)
    requires w.console == None
    requires w.info.Valid() ==> BlackInside(w.buf[..], w.info, Interior(w.width, w.height))
    ensures Legible(w, font) && Hidden(w)
  {
  }

  method PerformCreate(wm: WindowManager, a: Action, fb: array<Byte>, ghost k: Known, ghost cs: set<Console>)
    requires Steady(wm, fb, k, cs) && a.Create?
    modifies wm
    ensures Steady(wm, fb, Learn(k, a), cs)
    ensures old(Chromed(wm)) && Spacious(a) ==> Chromed(wm)
    ensures old(Neat(wm, k)) ==> Neat(wm, Learn(k, a))
    ensures fresh(wm.Members() - old(wm.Members())) && fresh(wm.Bufs() - old(wm.Bufs()))
  {
    hide ChromeMatches;
    hide Registered;
    hide BlackInside;
    hide Interior;
    hide Shows;
    hide Cramped;
    hide Hosts;
    hide Legible;
    hide Hidden;
    ghost var ws := wm.windows;
    var _ := wm.CreateWindow(a.x, a.y, a.width, a.height, a.title);
    ghost var win := wm.windows[|ws|];
    assert wm.windows == ws + [win];
    BlankIsLegible(win, wm.font);
  }

  method PerformConsole(wm: WindowManager, a: Action, fb: array<Byte>, ghost k: Known, ghost cs: set<Console>)
    requires Steady(wm, fb, k, cs) && (a.Write? || a.Clear?)
    modifies cs, wm.Bufs(), wm.Members()`dirty, wm`needsComposite
    ensures Steady(wm, fb, Learn(k, a), cs) && wm.windows == old(wm.windows)
    ensures old(Chromed(wm)) ==> Chromed(wm)
    ensures old(Neat(wm, k)) && Tidy(k, a) ==> Neat(wm, Learn(k, a))
  {
    hide ChromeMatches;
    hide Registered;
    hide Shows;
    hide Cramped;
    hide Hosts;
    hide Furnished;
    hide WindowManager.ChromeRight;
    hide WindowManager.UpToDate;
    hide PicturesOf;
    hide CursorState.Sound;
    hide Legible;
    hide IndexOf;
    ghost var at := IndexOf(wm.windows, a.id);
    if at >= 0 {
      NotShared(wm.windows, wm.screen, wm.nextId, at);
    }
    ConsoleDraw(wm, a.id, if a.Write? then Some(a.text) else None);
  }

  method PerformCursor(wm: WindowManager, a: Action, fb: array<Byte>, ghost k: Known, ghost cs: set<Console>)
    requires Steady(wm, fb, k, cs) && a.Cursor?
    modifies cs, wm.Bufs(), wm.Members()`dirty, wm`needsComposite
    ensures Steady(wm, fb, Learn(k, a), cs) && wm.windows == old(wm.windows)
    ensures old(Chromed(wm)) ==> Chromed(wm)
    ensures old(Neat(wm, k)) ==> Neat(wm, Learn(k, a))
  {
    hide ChromeMatches;
    hide Registered;
    hide Shows;
    hide Cramped;
    hide Hosts;
    hide Furnished;
    hide WindowManager.ChromeRight;
    hide WindowManager.UpToDate;
    hide PicturesOf;
    hide CursorState.Sound;
    hide Legible;
    hide IndexOf;
    ghost var at := IndexOf(wm.windows, a.id);
    if at >= 0 {
      NotShared(wm.windows, wm.screen, wm.nextId, at);
    }
    ConsoleCursor(wm, a.id, a.show);
  }

  method PerformInit(wm: WindowManager, a: Action, fb: array<Byte>, ghost k: Known, ghost cs: set<Console>)
    returns (ghost cs': set<Console>)
    requires Steady(wm, fb, k, cs) && a.Init? && k.pending
    modifies wm.Members()`console, wm.Bufs()
    ensures Steady(wm, fb, Learn(k, a), cs') && fresh(cs' - cs) && wm.windows == old(wm.windows)
    ensures old(Chromed(wm)) ==> Chromed(wm)
    ensures old(Neat(wm, k)) && Tidy(k, a) ==> Neat(wm, Learn(k, a))
  {
    hide ChromeMatches;
    hide Registered;
    hide Shows;
    hide Cramped;
    hide Hosts;
    hide Furnished;
    hide WindowManager.ChromeRight;
    hide WindowManager.UpToDate;
    hide PicturesOf;
    hide CursorState.Sound;
    hide Legible;
    hide IndexOf;
    ghost var at := IndexOf(wm.windows, a.id);
    if at >= 0 {
      NotShared(wm.windows, wm.screen, wm.nextId, at);
    }
    InitConsole(wm, a.id);
    cs' := if at >= 0 then cs + {wm.windows[at].console.value} else cs;
  }

  /** The window manager's own calls. */
  method PerformManager(wm: WindowManager, a: Action, fb: array<Byte>, ghost k: Known, ghost cs: set<Console>)
    requires Steady(wm, fb, k, cs) && (a.Focus? || a.Dirty? || a.Request? || a.Move? || a.Redraw?)
    modifies wm`windows, wm`focused, wm`needsComposite, wm.Members()`dirty, wm.Bufs(), wm.cursor, wm.cursor.savedBg,
             wm.backBuf, fb
    ensures Steady(wm, fb, Learn(k, a), cs) && wm.Members() == old(wm.Members())
    ensures old(Chromed(wm)) ==> Chromed(wm)
    ensures old(Neat(wm, k)) ==> Neat(wm, Learn(k, a))
  {
    hide Hosts;
    hide Legible;
    hide Cramped;
    hide Registered;
    hide WindowManager.InSync;
    hide WindowManager.Separate;
    hide WindowManager.ChromeRight;
    hide Furnished;
    ManageLegibly(wm, a, fb);
  }

  /** What could be read can be read afterwards. */
  method ManageLegibly(wm: WindowManager, a: Action, fb: array<Byte>)
    requires wm.Sound() && Furnished(wm) && wm.Separate(fb) && wm.InSync(fb)
    requires a.Focus? || a.Dirty? || a.Request? || a.Move? || a.Redraw?
    modifies wm`windows, wm`focused, wm`needsComposite, wm.Members()`dirty, wm.Bufs(), wm.cursor, wm.cursor.savedBg,
             wm.backBuf, fb
    ensures wm.Sound() && Furnished(wm) && wm.Separate(fb) && wm.InSync(fb) && wm.Members() == old(wm.Members())
    ensures forall w :: w in wm.windows ==> w in old(wm.windows)
    ensures old(wm.ChromeRight()) ==> wm.ChromeRight()
    ensures forall w :: w in old(wm.Members()) && old(Legible(w, wm.font)) ==> Legible(w, wm.font)
    ensures if a.Redraw? then !wm.needsComposite
            else old(wm.needsComposite) || a.Dirty? || a.Request? ==> wm.needsComposite
    ensures a.Move? && !a.event.left ==> wm.needsComposite == old(wm.needsComposite)
  {
    hide Reads;
    hide Furnished;
    hide ContentKept;
    hide Registered;
    hide WindowManager.InSync;
    hide WindowManager.Separate;
    hide WindowManager.ChromeRight;
    ghost var ws, was := wm.Members(), wm.Pictures();
    ManageFurnished(wm, a, fb);
    forall w | w in ws && old(Legible(w, wm.font))
      ensures Legible(w, wm.font)
    {
      assert ContentKept(was[w], w.buf[..], w.info, Interior(w.width, w.height));
      ReadsKept(w.width, w.height, w.info, was[w], w.buf[..], wm.font, PanelOf(w.console));
    }
  }

  /** The windows and their consoles are the same ones as before. */
  method ManageFurnished(wm: WindowManager, a: Action, fb: array<Byte>)
    requires wm.Sound() && Furnished(wm) && wm.Separate(fb) && wm.InSync(fb)
    requires a.Focus? || a.Dirty? || a.Request? || a.Move? || a.Redraw?
    modifies wm`windows, wm`focused, wm`needsComposite, wm.Members()`dirty, wm.Bufs(), wm.cursor, wm.cursor.savedBg,
             wm.backBuf, fb
    ensures wm.Sound() && Furnished(wm) && wm.Separate(fb) && wm.InSync(fb) && wm.Members() == old(wm.Members())
    ensures forall w :: w in wm.windows ==> w in old(wm.windows)
    ensures old(wm.ChromeRight()) ==> wm.ChromeRight()
    ensures ContentsKept(old(wm.Pictures()), wm.Pictures())
    ensures if a.Redraw? then !wm.needsComposite
            else old(wm.needsComposite) || a.Dirty? || a.Request? ==> wm.needsComposite
    ensures a.Move? && !a.event.left ==> wm.needsComposite == old(wm.needsComposite)
  {
    hide Hosts;
    hide ContentsKept;
    hide Registered;
    hide WindowManager.InSync;
    hide WindowManager.Separate;
    hide WindowManager.ChromeRight;
    Manage(wm, a, fb);
    assert forall w :: w in wm.windows ==> w in wm.Members();
  }

  method Manage(wm: WindowManager, a: Action, fb: array<Byte>)
    requires wm.Sound() && wm.Separate(fb) && wm.InSync(fb)
    requires a.Focus? || a.Dirty? || a.Request? || a.Move? || a.Redraw?
    modifies wm`windows, wm`focused, wm`needsComposite, wm.Members()`dirty, wm.Bufs(), wm.cursor, wm.cursor.savedBg,
             wm.backBuf, fb
    ensures wm.Sound() && wm.Separate(fb) && wm.InSync(fb) && wm.Members() == old(wm.Members())
    ensures old(wm.ChromeRight()) ==> wm.ChromeRight()
    ensures ContentsKept(old(wm.Pictures()), wm.Pictures())
    ensures if a.Redraw? then !wm.needsComposite
            else old(wm.needsComposite) || a.Dirty? || a.Request? ==> wm.needsComposite
    ensures a.Move? && !a.event.left ==> wm.needsComposite == old(wm.needsComposite)
  {
    hide ShowsDesk;
    hide SavedUnder;
    hide ChromeMatches;
    hide Registered;
    hide Promoted;
    hide ContentsKept;
    hide IndexOf;
    wm.SamePictures();
    match a {
      case Focus(id) => wm.FocusWindow(id);
      case Dirty(id) => wm.MarkDirty(id);
      case Request => wm.RequestComposite();
      case Move(event) => wm.HandleMouse(event, fb);
      case Redraw => wm.Composite(fb);
    }
  }

  method Perform(wm: WindowManager, a: Action, fb: array<Byte>, ghost k: Known, ghost cs: set<Console>)
    returns (ghost cs': set<Console>)
    requires Steady(wm, fb, k, cs) && Proper(k, a)
    modifies wm, wm.Members(), wm.Bufs(), cs, wm.cursor, wm.cursor.savedBg, wm.backBuf, fb
    ensures Steady(wm, fb, Learn(k, a), cs') && fresh(cs' - cs)
    ensures old(Chromed(wm)) && Spacious(a) ==> Chromed(wm)
    ensures old(Neat(wm, k)) && Tidy(k, a) ==> Neat(wm, Learn(k, a))
    ensures fresh(wm.Members() - old(wm.Members())) && fresh(wm.Bufs() - old(wm.Bufs()))
  {
    hide Steady;
    hide Chromed;
    hide Neat;
    hide Learn;
    cs' := cs;
    match a {
      case Create(_, _, _, _, _) => PerformCreate(wm, a, fb, k, cs);
      case Init(_) => cs' := PerformInit(wm, a, fb, k, cs);
      case Write(_, _) => PerformConsole(wm, a, fb, k, cs);
      case Clear(_) => PerformConsole(wm, a, fb, k, cs);
      case Cursor(_, _) => PerformCursor(wm, a, fb, k, cs);
      case _ => PerformManager(wm, a, fb, k, cs);
    }
  }

  /** Every init_console comes while a composite is pending. */
  predicate AllProper(k: Known, actions: seq<Action>) {
    forall i :: 0 <= i < |actions| ==> Proper(LearnAll(k, actions[..i]), actions[i])
  }

  predicate AllTidy(k: Known, actions: seq<Action>) {
    forall i :: 0 <= i < |actions| ==> Tidy(LearnAll(k, actions[..i]), actions[i])
  }

  predicate AllSpacious(actions: seq<Action>) {
    forall i :: 0 <= i < |actions| ==> Spacious(actions[i])
  }

  /** How the shell uses its console: hide the text cursor, write, show it again. */
  function Turns(id: nat, texts: seq<string>): seq<Action> {
    if texts == [] then []
    else Turns(id, texts[..|texts| - 1]) + [Cursor(id, false), Write(id, texts[|texts| - 1]), Cursor(id, true)]
  }

  /** However often it does so, the conditions on runs are met. */
  lemma {:induction false} ShellIsTidy(k: Known, id: nat, texts: seq<string>)
    requires forall i :: 0 <= i < |texts| ==> T.RETURN !in texts[i]
    ensures AllProper(k, Turns(id, texts)) && AllTidy(k, Turns(id, texts)) && AllSpacious(Turns(id, texts))
    decreases |texts|
  {
    if texts != [] {
      var n := |texts| - 1;
      ShellIsTidy(k, id, texts[..n]);
      OneTurn(k, Turns(id, texts[..n]), id, texts[n]);
    }
  }

  lemma OneTurn(k: Known, before: seq<Action>, id: nat, text: string)
    requires AllProper(k, before) && AllTidy(k, before) && AllSpacious(before) && T.RETURN !in text
    ensures var all := before + [Cursor(id, false), Write(id, text), Cursor(id, true)];
            AllProper(k, all) && AllTidy(k, all) && AllSpacious(all)
  {
    hide AllProper;
    hide AllTidy;
    hide AllSpacious;
    hide LearnAll;
    var one := before + [Cursor(id, false)];
    var two := one + [Write(id, text)];
    ThenAlso(k, before, Cursor(id, false));
    ThenAlso(k, one, Write(id, text));
    ThenAlso(k, two, Cursor(id, true));
    assert before + [Cursor(id, false), Write(id, text), Cursor(id, true)] == two + [Cursor(id, true)];
  }

  lemma ThenAlso(k: Known, actions: seq<Action>, a: Action)
    requires AllProper(k, actions) && AllTidy(k, actions) && AllSpacious(actions)
    requires var m := LearnAll(k, actions); Proper(m, a) && Tidy(m, a) && Spacious(a)
    ensures var all := actions + [a]; AllProper(k, all) && AllTidy(k, all) && AllSpacious(all)
    ensures LearnAll(k, actions + [a]) == Learn(LearnAll(k, actions), a)
  {
    var all := actions + [a];
    assert all[..|actions|] == actions;
    forall i | 0 <= i < |actions|
      ensures all[..i] == actions[..i] && all[i] == actions[i]
    {
    }
    hide Learn;
    hide LearnAll;
    hide Proper;
    hide Tidy;
    hide Spacious;
  }

  /** So does the kernel's start: three windows, consoles in two of them, the first composite. */
  lemma BootIsProper(one: seq<Byte>, two: seq<Byte>, three: seq<Byte>)
    ensures var boot := [Create(380, 80, 520, 420, one), Create(20, 40, 340, 520, two), Create(560, 40, 240, 200, three),
                         Init(0), Init(2), Redraw];
            var k := Known(true, false, {});
            && AllProper(k, boot) && AllTidy(k, boot) && AllSpacious(boot)
            && LearnAll(k, boot) == Known(false, true, {})
  {
    var k := Known(true, false, {});
    var a, b, c := Create(380, 80, 520, 420, one), Create(20, 40, 340, 520, two), Create(560, 40, 240, 200, three);
    NothingYet(k);
    hide AllProper;
    hide AllTidy;
    hide AllSpacious;
    hide LearnAll;
    ThenAlso(k, [], a);
    ThenAlso(k, [] + [a], b);
    ThenAlso(k, [] + [a] + [b], c);
    ThenAlso(k, [] + [a] + [b] + [c], Init(0));
    ThenAlso(k, [] + [a] + [b] + [c] + [Init(0)], Init(2));
    ThenAlso(k, [] + [a] + [b] + [c] + [Init(0)] + [Init(2)], Redraw);
    assert [] + [a] + [b] + [c] + [Init(0)] + [Init(2)] + [Redraw] == [a, b, c, Init(0), Init(2), Redraw];
  }

  lemma NothingYet(k: Known)
    ensures AllProper(k, []) && AllTidy(k, []) && AllSpacious([]) && LearnAll(k, []) == k
  {
  }

  /** In every state the desktop can reach, by any run of actions: the frame buffer is in sync; all chrome
      is right unless a window is cramped; and if consoles are used tidily, every console can be read. */
  method RunActions(wm: WindowManager, actions: seq<Action>, fb: array<Byte>, ghost k: Known, ghost cs: set<Console>)
    returns (ghost cs': set<Console>)
    requires Steady(wm, fb, k, cs) && AllProper(k, actions)
    modifies wm, wm.Members(), wm.Bufs(), cs, wm.cursor, wm.cursor.savedBg, wm.backBuf, fb
    ensures Steady(wm, fb, LearnAll(k, actions), cs') && fresh(cs' - cs)
    ensures old(Chromed(wm)) && AllSpacious(actions) ==> Chromed(wm)
    ensures old(Neat(wm, k)) && AllTidy(k, actions) ==> Neat(wm, LearnAll(k, actions))
    ensures fresh(wm.Members() - old(wm.Members())) && fresh(wm.Bufs() - old(wm.Bufs()))
  {
    hide Steady;
    hide Chromed;
    hide Neat;
    hide Learn;
    hide Proper;
    hide Tidy;
    hide Spacious;
    cs' := cs;
    for i := 0 to |actions|
      invariant Steady(wm, fb, LearnAll(k, actions[..i]), cs') && fresh(cs' - cs)
      invariant old(Chromed(wm)) && AllSpacious(actions) ==> Chromed(wm)
      invariant old(Neat(wm, k)) && AllTidy(k, actions) ==> Neat(wm, LearnAll(k, actions[..i]))
      invariant fresh(wm.Members() - old(wm.Members())) && fresh(wm.Bufs() - old(wm.Bufs()))
    {
      assert actions[..i + 1][..i] == actions[..i];
      cs' := Perform(wm, actions[i], fb, LearnAll(k, actions[..i]), cs');
    }
    assert actions[..|actions|] == actions;
  }

  /** The cache theorem: however many mouse events, console calls and focus changes there were, if no
      composite is pending at the end, compositing from scratch onto another frame buffer produces
      exactly the colours the frame buffer shows. None is pending after a composite and any mouse events
      without the left button. */
  method IncrementalEqualsComposite(wm: WindowManager, actions: seq<Action>, fb: array<Byte>, other: array<Byte>,
                                    ghost k: Known, ghost cs: set<Console>)
    requires Steady(wm, fb, k, cs) && AllProper(k, actions) && wm.Separate(other) && fb != other
    modifies wm, wm.Members(), wm.Bufs(), cs, wm.cursor, wm.cursor.savedBg, wm.backBuf, fb, other
    ensures wm.Sound() && wm.InSync(fb)
    ensures !wm.needsComposite ==> SameColors(fb[..], other[..], wm.screen)
    ensures LearnAll(k, actions).idle ==> SameColors(fb[..], other[..], wm.screen)
  {
    hide AllProper;
    hide LearnAll;
    hide WindowManager.UpToDate;
    ghost var _ := RunActions(wm, actions, fb, k, cs);
    if !wm.needsComposite {
      CompositeElsewhere(wm, fb, other);
    }
  }

  /** From boot: nothing is assumed but the first frame buffer's size. */
  lemma BootIsSteady(wm: WindowManager, fb: array<Byte>)
    requires wm.Sound() && wm.ChromeRight() && wm.windows == [] && wm.needsComposite && wm.Separate(fb)
    ensures Steady(wm, fb, Known(true, false, {}), {}) && Chromed(wm) && Neat(wm, Known(true, false, {}))
  {
  }
}
