/** The compositing window manager: z-ordered windows with their own buffers, a back buffer, and a
    mouse sprite that is moved incrementally by saving and restoring the pixels under it. */
module WindowManagers {
  import opened Prelude
  import opened Mouse
  import opened Pixels
  import opened Drawing
  import opened Compositor
  import C = Consoles

  // ---------------------------------------------------------------------------
  // Windows
  // ---------------------------------------------------------------------------

  /** UTF-8 decoding, with "?" for what is not UTF-8: never more characters than bytes. */
  type Decoder = d: seq<Byte> -> string | forall bytes :: |d(bytes)| <= |bytes| witness (bytes: seq<Byte>) => ""

  class Window {
    const id: nat
    const x: nat
    const y: nat
    const width: nat
    const height: nat
    const title: string
    const titleLen: nat
    const buf: array<Byte>
    const info: Info
    var console: Option<C.Console>
    var dirty: bool

    /** The buffer has the screen's pixel layout and room for every pixel of the window. */
    ghost predicate Sound(screen: Info) {
      && screen.Valid()
      && info == BufferInfo(screen, width, height) && buf.Length == info.Bytes()
      && |title| <= titleLen <= MAX_TITLE
    }

    ghost function Snapshot(): View
      reads buf
    {
      Showing(buf[..])
    }

    /** This window as it looks with the given bytes in its buffer. */
    ghost function Showing(pixels: seq<Byte>): View {
      View(id, x, y, width, height, title, titleLen, pixels)
    }

    constructor (id: nat, x: nat, y: nat, width: nat, height: nat, title: string, titleLen: nat, screen: Info)
      requires screen.Valid() && |title| <= titleLen <= MAX_TITLE
      ensures Sound(screen) && fresh(buf) && dirty && console == None
      ensures forall i :: 0 <= i < buf.Length ==> buf[i] == 0
      ensures this.id == id && this.x == x && this.y == y && this.width == width && this.height == height
      ensures this.title == title && this.titleLen == titleLen
    {
      this.id, this.x, this.y, this.width, this.height := id, x, y, width, height;
      this.title, this.titleLen := title, titleLen;
      info := BufferInfo(screen, width, height);
      buf := new Byte[height * width * screen.bpp](_ => 0);
      console := None;
      dirty := true;
    }

    /** Repaints title bar, border and title; the content area keeps its colours. */
    method DrawChrome(screen: Info, font: Font, focused: bool)
      requires Sound(screen)
      modifies buf
      ensures Stroked(old(buf[..]), buf[..], info, ChromeStrokes(width, height, title, font, focused))
      ensures HasChrome(Snapshot(), info, font, focused)
      ensures ContentKept(old(buf[..]), buf[..], info, Interior(width, height))
    {
      ghost var was := buf[..];
      StrokedNothing(was, info);
      var titleH := Min(TITLE_BAR_HEIGHT, height);
      FillRect(buf, info, Rect(0, 0, width, titleH), TitleColor(focused));
      ghost var strokes := [Stroke(Box(Rect(0, 0, width, titleH)), TitleColor(focused))];
      StrokedThen(was, was, buf[..], info, [], strokes[0]);
      assert [] + [strokes[0]] == strokes;

      ghost var mid := buf[..];
      DrawRectOutline(buf, info, Rect(0, 0, width, height), BORDER_COLOR);
      if width > 0 && height > 0 {
        ghost var s := Stroke(Outline(0, 0, width - 1, height - 1), BORDER_COLOR);
        StrokedThen(was, mid, buf[..], info, strokes, s);
        strokes := strokes + [s];
      }

      if titleH >= FONT_HEIGHT {
        mid := buf[..];
        DrawText(buf, info, font, WINDOW_PADDING, (titleH - FONT_HEIGHT) / 2, title, TITLE_TEXT_COLOR);
        ghost var s := Stroke(Text(font, title, WINDOW_PADDING, (titleH - FONT_HEIGHT) / 2), TITLE_TEXT_COLOR);
        StrokedThen(was, mid, buf[..], info, strokes, s);
        strokes := strokes + [s];
      }
      assert strokes == ChromeStrokes(width, height, title, font, focused);
      ghost var now := buf[..];
      hide *;
      ChromeDrawn(was, now, Snapshot(), info, font, focused);
    }
  }

  /** The colours inside `area` are unchanged. */
  ghost predicate ContentKept(before: seq<Byte>, after: seq<Byte>, info: Info, area: Rect) {
    info.Valid() && forall px: nat, py: nat :: area.Contains(px, py) ==>
      ReadPixel(after, info, px, py) == ReadPixel(before, info, px, py)
  }

  ghost predicate BlackInside(buf: seq<Byte>, info: Info, area: Rect)
    requires info.Valid()
  {
    forall px: nat, py: nat :: area.Contains(px, py) ==> ReadPixel(buf, info, px, py) == BLACK
  }

  lemma ZerosAreBlack(buf: seq<Byte>, info: Info, area: Rect)
    requires info.Valid() && forall i :: 0 <= i < |buf| ==> buf[i] == 0
    ensures BlackInside(buf, info, area)
  {
  }

  lemma StaysBlack(before: seq<Byte>, after: seq<Byte>, info: Info, area: Rect)
    requires info.Valid() && BlackInside(before, info, area) && ContentKept(before, after, info, area)
    ensures BlackInside(after, info, area)
  {
  }

  /** Exactly the focused window carries focused chrome. */
  ghost predicate ChromeMatches(pictures: map<Window, seq<Byte>>, font: Font, focused: Option<nat>) {
    forall w :: w in pictures && w.info.Valid() ==>
      HasChrome(w.Showing(pictures[w]), w.info, font, focused == Some(w.id))
  }

  /** Only the window with this id was repainted, and it got the chrome asked for. */
  ghost predicate Redrawn(before: map<Window, seq<Byte>>, after: map<Window, seq<Byte>>, font: Font,
                          id: nat, isFocused: bool)
  {
    && before.Keys == after.Keys
    && forall w :: w in before && w.info.Valid() ==>
         if w.id == id then HasChrome(w.Showing(after[w]), w.info, font, isFocused) else after[w] == before[w]
  }

  /** A new window comes with the chrome its focus calls for. */
  lemma ChromeAdded(was: map<Window, seq<Byte>>, now: map<Window, seq<Byte>>, font: Font,
                    wasFocused: Option<nat>, focused: Option<nat>, win: Window)
    requires now.Keys == was.Keys + {win}
    requires forall w :: w in was ==> now[w] == was[w] && w.id < win.id
    requires focused == if wasFocused == None then Some(win.id) else wasFocused
    requires win.info.Valid() && HasChrome(win.Showing(now[win]), win.info, font, focused == Some(win.id))
    ensures ChromeMatches(was, font, wasFocused) ==> ChromeMatches(now, font, focused)
  {
  }

  lemma OneRedrawn(before: map<Window, seq<Byte>>, after: map<Window, seq<Byte>>, font: Font, id: nat,
                   isFocused: bool, win: Window)
    requires before.Keys == after.Keys && win in after && win.id == id
    requires forall w :: w in after ==> w.info.Valid()
    requires forall w :: w in after && w != win ==> w.id != id && after[w] == before[w]
    requires HasChrome(win.Showing(after[win]), win.info, font, isFocused)
    requires ContentKept(before[win], after[win], win.info, Interior(win.width, win.height))
    ensures Redrawn(before, after, font, id, isFocused)
    ensures ContentsKept(before, after)
  {
  }

  lemma NoneRedrawn(pictures: map<Window, seq<Byte>>, font: Font, id: nat, isFocused: bool)
    requires forall w :: w in pictures ==> w.id != id && w.info.Valid()
    ensures Redrawn(pictures, pictures, font, id, isFocused)
    ensures ContentsKept(pictures, pictures)
  {
  }

  /** Repainting the old and then the new focused window moves the focused chrome. */
  lemma FocusMoved(was: map<Window, seq<Byte>>, mid: map<Window, seq<Byte>>, now: map<Window, seq<Byte>>,
                   font: Font, focused: Option<nat>, id: nat)
    requires focused != Some(id)
    requires if focused.Some? then Redrawn(was, mid, font, focused.value, false) else mid == was
    requires Redrawn(mid, now, font, id, true)
    ensures ChromeMatches(was, font, focused) ==> ChromeMatches(now, font, Some(id))
  {
  }

  /** No pixel inside the chrome of any window changed colour. */
  ghost predicate ContentsKept(before: map<Window, seq<Byte>>, after: map<Window, seq<Byte>>) {
    && before.Keys == after.Keys
    && (forall w :: w in before ==> ContentKept(before[w], after[w], w.info, Interior(w.width, w.height)))
  }

  lemma ContentsKeptRefl(a: map<Window, seq<Byte>>)
    requires forall w :: w in a.Keys ==> w.info.Valid()
    ensures ContentsKept(a, a)
  {
  }

  lemma ContentsKeptTrans(a: map<Window, seq<Byte>>, b: map<Window, seq<Byte>>, c: map<Window, seq<Byte>>)
    requires ContentsKept(a, b) && ContentsKept(b, c)
    ensures ContentsKept(a, c)
  {
  }

  lemma ChromeDrawn(before: seq<Byte>, after: seq<Byte>, v: View, info: Info, font: Font, focused: bool)
    requires info.Valid() && v.pixels == after
    requires Stroked(before, after, info, ChromeStrokes(v.width, v.height, v.title, font, focused))
    ensures HasChrome(v, info, font, focused)
    ensures ContentKept(before, after, info, Interior(v.width, v.height))
  {
    var strokes := ChromeStrokes(v.width, v.height, v.title, font, focused);
    forall px: nat, py: nat | Interior(v.width, v.height).Contains(px, py)
      ensures ReadPixel(after, info, px, py) == ReadPixel(before, info, px, py)
    {
      ChromeSparesContent(v, font, focused, px, py);
      hide ReadPixel;
      hide ChromeStrokes;
    }
    hide ReadPixel;
    hide ChromeStrokes;
  }

  /** No chrome stroke covers a pixel below the title bar and inside the border. */
  lemma ChromeSparesContent(v: View, font: Font, focused: bool, px: int, py: int)
    requires Interior(v.width, v.height).Contains(px, py)
    ensures TopStroke(ChromeStrokes(v.width, v.height, v.title, font, focused), px, py) == None
  {
    var strokes := ChromeStrokes(v.width, v.height, v.title, font, focused);
    forall i | 0 <= i < |strokes|
      ensures !strokes[i].shape.Covers(px, py)
    {
    }
    NoStroke(strokes, px, py);
  }

  lemma NoStroke(strokes: seq<Stroke>, px: int, py: int)
    requires forall i :: 0 <= i < |strokes| ==> !strokes[i].shape.Covers(px, py)
    ensures TopStroke(strokes, px, py) == None
  {
  }

  // ---------------------------------------------------------------------------
  // Mouse cursor
  // ---------------------------------------------------------------------------

  function Clamp(v: int, lo: int, hi: int): (r: int)
    requires lo <= hi
    ensures lo <= r <= hi && (lo <= v <= hi ==> r == v)
    ensures (v < lo ==> r == lo) && (v > hi ==> r == hi)
  {
    if v < lo then lo else if v > hi then hi else v
  }

  /** No point of the range is nearer. */
  lemma ClampIsNearest(v: int, lo: int, hi: int, p: int)
    requires lo <= p <= hi
    ensures Distance(v, Clamp(v, lo, hi)) <= Distance(v, p)
  {
  }

  function Distance(a: int, b: int): nat {
    if a < b then b - a else a - b
  }

  /** Where the pixel under sprite pixel (sx, sy) is saved. */
  function SavedIndex(sx: int, sy: int): int {
    sy * CURSOR_W + sx
  }

  /** saved[SavedIndex(sx, sy)] is a displayable colour, namely that of the scene under sprite pixel (sx, sy),
      for every sprite pixel that is on the screen. */
  ghost predicate SavedUnder(saved: seq<Color>, desk: Desk, cx: nat, cy: nat)
    requires desk.Valid()
  {
    && |saved| == CURSOR_W * CURSOR_H
    && forall sx: nat, sy: nat ::
         sx < CURSOR_W && sy < CURSOR_H && desk.OnScreen(cx + sx, cy + sy) ==>
           && saved[SavedIndex(sx, sy)] == desk.Scene(cx + sx, cy + sy)
           && Shade(desk.screen.format, saved[SavedIndex(sx, sy)]) == saved[SavedIndex(sx, sy)]
  }

  /** The saved colours are those `buf` shows in the 12 x 16 box at (cx, cy). */
  ghost predicate SavedFrom(saved: seq<Color>, buf: seq<Byte>, info: Info, cx: nat, cy: nat)
    requires info.Valid()
  {
    && |saved| == CURSOR_W * CURSOR_H
    && forall sx: nat, sy: nat :: sx < CURSOR_W && sy < CURSOR_H ==>
         saved[SavedIndex(sx, sy)] == ReadPixel(buf, info, cx + sx, cy + sy)
  }

  /** Sprite pixels scanned before row `sy`, column `sx`. */
  predicate Scanned(px: int, py: int, cx: int, cy: int, sx: int, sy: int) {
    Sprite(px - cx, py - cy).Some? && (py - cy < sy || (py - cy == sy && px - cx < sx))
  }

  /** The sprite pixels scanned so far show the saved colours again. */
  ghost predicate Restored(before: seq<Byte>, after: seq<Byte>, info: Info, saved: seq<Color>, cx: nat, cy: nat,
                           sx: nat, sy: nat)
    requires info.Valid() && |saved| == CURSOR_W * CURSOR_H
  {
    && |after| == |before|
    && forall px: nat, py: nat {:trigger ReadPixel(after, info, px, py)} ::
         ReadPixel(after, info, px, py) ==
         if Scanned(px, py, cx, cy, sx, sy) && info.Has(|before|, px, py)
         then Shade(info.format, saved[SavedIndex(px - cx, py - cy)])
         else ReadPixel(before, info, px, py)
  }

  /** The sprite pixels scanned so far show the sprite. */
  ghost predicate SpriteDrawn(before: seq<Byte>, after: seq<Byte>, info: Info, cx: nat, cy: nat, sx: nat, sy: nat)
    requires info.Valid()
  {
    && |after| == |before|
    && forall px: nat, py: nat {:trigger ReadPixel(after, info, px, py)} ::
         ReadPixel(after, info, px, py) ==
         if Scanned(px, py, cx, cy, sx, sy) && info.Has(|before|, px, py) then Sprite(px - cx, py - cy).value
         else ReadPixel(before, info, px, py)
  }

  class CursorState {
    var x: int
    var y: int
    const screenWidth: int
    const screenHeight: int
    const savedBg: array<Color>
    var visible: bool

    ghost predicate Sound(screen: Info)
      reads this
    {
      && screenWidth == screen.width && screenHeight == screen.height
      && 0 <= x < screenWidth && 0 <= y < screenHeight
      && savedBg.Length == CURSOR_W * CURSOR_H
    }

    constructor (w: nat, h: nat)
      requires w > 0 && h > 0
      ensures screenWidth == w && screenHeight == h && x == w / 2 && y == h / 2 && !visible
      ensures 0 <= x < screenWidth && 0 <= y < screenHeight
      ensures fresh(savedBg) && savedBg.Length == CURSOR_W * CURSOR_H
    {
      x, y, screenWidth, screenHeight, visible := w / 2, h / 2, w, h, false;
      savedBg := new Color[CURSOR_W * CURSOR_H](_ => BLACK);
    }

    method SaveBackground(buf: array<Byte>, info: Info)
      requires Sound(info) && info.Valid()
      modifies savedBg
      ensures SavedFrom(savedBg[..], buf[..], info, x, y)
    {
      var cx: nat, cy: nat := x, y;
      for sy := 0 to CURSOR_H
        invariant forall px: nat, py: nat :: px < CURSOR_W && py < sy ==>
          savedBg[SavedIndex(px, py)] == ReadPixel(buf[..], info, cx + px, cy + py)
      {
        for sx := 0 to CURSOR_W
          invariant forall px: nat, py: nat :: px < CURSOR_W && (py < sy || (py == sy && px < sx)) ==>
            savedBg[SavedIndex(px, py)] == ReadPixel(buf[..], info, cx + px, cy + py)
        {
          savedBg[SavedIndex(sx, sy)] := ReadPixel(buf[..], info, cx + sx, cy + sy);
        }
      }
    }

    method RestoreBackground(buf: array<Byte>, info: Info)
      requires Sound(info) && info.Valid()
      modifies buf
      ensures !visible ==> buf[..] == old(buf[..])
      ensures visible ==> Restored(old(buf[..]), buf[..], info, savedBg[..], x, y, 0, CURSOR_H)
    {
      if !visible {
        return;
      }
      var cx: nat, cy: nat := x, y;
      ghost var was, saved := buf[..], savedBg[..];
      NothingRestored(was, info, saved, cx, cy);
      for sy := 0 to CURSOR_H
        invariant savedBg[..] == saved
        invariant Restored(was, buf[..], info, saved, cx, cy, 0, sy)
      {
        for sx := 0 to CURSOR_W
          invariant savedBg[..] == saved
          invariant Restored(was, buf[..], info, saved, cx, cy, sx, sy)
        {
          var c := savedBg[SavedIndex(sx, sy)];
          hide *;
          ghost var mid := buf[..];
          if Sprite(sx, sy).Some? {
            PutPixel(buf, info, cx + sx, cy + sy, c);
          }
          RestoredStep(was, mid, buf[..], info, saved, cx, cy, sx, sy);
        }
        ScannedRow(was, buf[..], info, saved, cx, cy, sy);
      }
    }

    method Draw(buf: array<Byte>, info: Info)
      requires Sound(info) && info.Valid()
      modifies buf
      ensures SpriteDrawn(old(buf[..]), buf[..], info, x, y, 0, CURSOR_H)
    {
      hide Sprite;
      var cx: nat, cy: nat := x, y;
      for sy := 0 to CURSOR_H
        invariant SpriteDrawn(old(buf[..]), buf[..], info, cx, cy, 0, sy)
      {
        for sx := 0 to CURSOR_W
          invariant SpriteDrawn(old(buf[..]), buf[..], info, cx, cy, sx, sy)
        {
          ghost var mid := buf[..];
          match Sprite(sx, sy) {
            case Some(c) => PutPixel(buf, info, cx + sx, cy + sy, c);
            case None =>
          }
          DrawnStep(old(buf[..]), mid, buf[..], info, cx, cy, sx, sy);
        }
        DrawnRow(old(buf[..]), buf[..], info, cx, cy, sy);
      }
    }

    method ApplyDelta(dx: int, dy: int)
      requires 0 < screenWidth && 0 < screenHeight
      modifies this`x, this`y
      ensures x == Clamp(old(x) + dx, 0, screenWidth - 1)
      ensures y == Clamp(old(y) - dy, 0, screenHeight - 1)
      ensures (old(x) + dx < 0 ==> x == 0) && (old(x) + dx >= screenWidth ==> x == screenWidth - 1)
      ensures (old(y) - dy < 0 ==> y == 0) && (old(y) - dy >= screenHeight ==> y == screenHeight - 1)
    {
      x := x + dx;
      y := y - dy;
      x := Clamp(x, 0, screenWidth - 1);
      y := Clamp(y, 0, screenHeight - 1);
    }
  }

  lemma ScannedStep(px: int, py: int, cx: int, cy: int, sx: nat, sy: nat)
    ensures Scanned(px, py, cx, cy, sx + 1, sy) <==>
            Scanned(px, py, cx, cy, sx, sy) || (px == cx + sx && py == cy + sy && Sprite(sx, sy).Some?)
    ensures Scanned(px, py, cx, cy, 0, sy + 1) <==> Scanned(px, py, cx, cy, CURSOR_W, sy)
  {
  }

  lemma NothingRestored(buf: seq<Byte>, info: Info, saved: seq<Color>, cx: nat, cy: nat)
    requires info.Valid() && |saved| == CURSOR_W * CURSOR_H
    ensures Restored(buf, buf, info, saved, cx, cy, 0, 0)
  {
  }

  lemma RestoredStep(before: seq<Byte>, mid: seq<Byte>, after: seq<Byte>, info: Info, saved: seq<Color>,
                     cx: nat, cy: nat, sx: nat, sy: nat)
    requires info.Valid() && |saved| == CURSOR_W * CURSOR_H && sx < CURSOR_W && sy < CURSOR_H
    requires Restored(before, mid, info, saved, cx, cy, sx, sy)
    requires if Sprite(sx, sy).Some? then Plotted(mid, after, info, cx + sx, cy + sy, saved[SavedIndex(sx, sy)])
             else after == mid
    ensures Restored(before, after, info, saved, cx, cy, sx + 1, sy)
  {
    hide Sprite;
    forall px: nat, py: nat {:trigger ReadPixel(after, info, px, py)}
      ensures ReadPixel(after, info, px, py) ==
              if Scanned(px, py, cx, cy, sx + 1, sy) && info.Has(|before|, px, py)
              then Shade(info.format, saved[SavedIndex(px - cx, py - cy)])
              else ReadPixel(before, info, px, py)
    {
      ScannedStep(px, py, cx, cy, sx, sy);
      hide ReadPixel;
    }
  }

  lemma ScannedRow(before: seq<Byte>, after: seq<Byte>, info: Info, saved: seq<Color>, cx: nat, cy: nat, sy: nat)
    requires info.Valid() && |saved| == CURSOR_W * CURSOR_H
    requires Restored(before, after, info, saved, cx, cy, CURSOR_W, sy)
    ensures Restored(before, after, info, saved, cx, cy, 0, sy + 1)
  {
  }

  lemma DrawnStep(before: seq<Byte>, mid: seq<Byte>, after: seq<Byte>, info: Info, cx: nat, cy: nat, sx: nat, sy: nat)
    requires info.Valid() && sx < CURSOR_W && sy < CURSOR_H
    requires SpriteDrawn(before, mid, info, cx, cy, sx, sy)
    requires match Sprite(sx, sy)
             case Some(c) => Plotted(mid, after, info, cx + sx, cy + sy, c)
             case None => after == mid
    ensures SpriteDrawn(before, after, info, cx, cy, sx + 1, sy)
  {
    hide Sprite;
    forall px: nat, py: nat {:trigger ReadPixel(after, info, px, py)}
      ensures ReadPixel(after, info, px, py) ==
              if Scanned(px, py, cx, cy, sx + 1, sy) && info.Has(|before|, px, py) then Sprite(px - cx, py - cy).value
              else ReadPixel(before, info, px, py)
    {
      ScannedStep(px, py, cx, cy, sx, sy);
      assert px == cx + sx && py == cy + sy ==> Sprite(px - cx, py - cy) == Sprite(sx, sy);
      assert Sprite(sx, sy).Some? ==> Shade(info.format, Sprite(sx, sy).value) == Sprite(sx, sy).value;
      hide ReadPixel;
      hide Shade;
    }
  }

  lemma DrawnRow(before: seq<Byte>, after: seq<Byte>, info: Info, cx: nat, cy: nat, sy: nat)
    requires info.Valid() && SpriteDrawn(before, after, info, cx, cy, CURSOR_W, sy)
    ensures SpriteDrawn(before, after, info, cx, cy, 0, sy + 1)
  {
  }

  // ---------------------------------------------------------------------------
  // Blitting and the taskbar
  // ---------------------------------------------------------------------------

  /** `after` is `before` with the window's buffer over its rectangle, clipped to the screen. */
  ghost predicate Blitted(before: seq<Byte>, after: seq<Byte>, screen: Info, v: View)
    requires screen.Valid()
  {
    && |after| == |before|
    && forall px: nat, py: nat {:trigger ReadPixel(after, screen, px, py)} ::
         px < screen.width && py < screen.height ==>
           ReadPixel(after, screen, px, py) ==
           if v.Covers(px, py) then ReadPixel(v.pixels, BufferInfo(screen, v.width, v.height), px - v.x, py - v.y)
           else ReadPixel(before, screen, px, py)
  }

  /** The first `n` rows of the window have been blitted. */
  ghost predicate PartlyBlitted(before: seq<Byte>, after: seq<Byte>, screen: Info, v: View, n: nat)
    requires screen.Valid()
  {
    && |after| == |before|
    && forall px: nat, py: nat {:trigger ReadPixel(after, screen, px, py)} ::
         px < screen.width && py < screen.height ==>
           ReadPixel(after, screen, px, py) ==
           if v.Covers(px, py) && py < v.y + n
           then ReadPixel(v.pixels, BufferInfo(screen, v.width, v.height), px - v.x, py - v.y)
           else ReadPixel(before, screen, px, py)
  }

  method BlitWindow(fb: array<Byte>, screen: Info, win: Window)
    requires win.Sound(screen) && fb.Length == screen.Bytes() && fb != win.buf
    modifies fb
    ensures Blitted(old(fb[..]), fb[..], screen, win.Snapshot())
  {
    var dstX, dstY := win.x, win.y;
    var copyW := Min(win.width, Monus(screen.width, dstX));
    var copyH := Min(win.height, Monus(screen.height, dstY));
    ghost var was, v := fb[..], win.Snapshot();
    for row := 0 to copyH
      invariant win.buf[..] == v.pixels
      invariant PartlyBlitted(was, fb[..], screen, v, row)
    {
      ghost var mid := fb[..];
      RowFits(screen, dstX, dstY + row, copyW);
      RowFits(win.info, 0, row, copyW);
      CopyRow(fb, screen, dstX, dstY + row, win.buf, win.info, 0, row, copyW);
      PartlyBlittedStep(was, mid, fb[..], screen, v, row, copyW);
    }
  }

  /** A clipped row of a full-size buffer is inside it: the length guards never skip a row that has pixels. */
  lemma RowFits(info: Info, x: nat, y: nat, w: nat)
    requires info.Valid() && y < info.height
    ensures w > 0 && x + w <= info.width ==> info.Offset(x, y) + w * info.bpp <= info.Bytes()
  {
    if w > 0 && x + w <= info.width {
      FullBufferHasPixel(info, x + w - 1, y);
      ShiftedOffset(info, x, y, w - 1);
      assert (w - 1) * info.bpp + info.bpp == w * info.bpp;
    }
  }

  lemma PartlyBlittedStep(before: seq<Byte>, mid: seq<Byte>, after: seq<Byte>, screen: Info, v: View, row: nat, w: nat)
    requires screen.Valid() && PartlyBlitted(before, mid, screen, v, row)
    requires row < v.height && v.y + row < screen.height && w == Min(v.width, Monus(screen.width, v.x))
    requires || RowShown(mid, after, screen, v.x, v.y + row,
                         v.pixels, BufferInfo(screen, v.width, v.height), 0, row, w)
             || (w == 0 && after == mid)
    ensures PartlyBlitted(before, after, screen, v, row + 1)
  {
  }

  /** The list of views carries the windows' fixed attributes. */
  ghost predicate Describes(ws: seq<Window>, vs: seq<View>) {
    && |ws| == |vs|
    && forall i :: 0 <= i < |ws| ==>
         && vs[i].id == ws[i].id && vs[i].title == ws[i].title && vs[i].titleLen == ws[i].titleLen
         && vs[i].x == ws[i].x && vs[i].y == ws[i].y && vs[i].width == ws[i].width && vs[i].height == ws[i].height
  }

  method DrawTaskbar(buf: array<Byte>, info: Info, font: Font, windows: seq<Window>, focused: Option<nat>,
                     ghost vs: seq<View>)
    requires info.Valid() && Describes(windows, vs)
    modifies buf
    ensures Stroked(old(buf[..]), buf[..], info, TaskbarStrokes(info, font, vs, focused))
  {
    var tbY := Monus(info.height, TASKBAR_HEIGHT);
    DrawPanel(buf, info, font, tbY);
    var lx := SEPARATOR_X + 8;
    for i := 0 to |windows|
      invariant lx == LabelEnd(vs[..i])
      invariant Stroked(old(buf[..]), buf[..], info, TaskbarStrokes(info, font, vs[..i], focused))
    {
      var win := windows[i];
      ghost var mid := buf[..];
      DrawLabel(buf, info, font, win, focused == Some(win.id), lx, tbY, vs, i);
      LastLabel(info, font, vs, i, focused);
      StrokedConcat(old(buf[..]), mid, buf[..], info, TaskbarStrokes(info, font, vs[..i], focused),
                    LabelStrokes(info, font, vs, i, focused == Some(win.id)));
      assert vs[..i + 1][..i] == vs[..i];
      lx := lx + win.titleLen * FONT_WIDTH + 16;
    }
    assert vs[..|windows|] == vs;
  }

  method DrawLabel(buf: array<Byte>, info: Info, font: Font, win: Window, isFocused: bool, lx: nat, tbY: nat,
                   ghost vs: seq<View>, ghost i: nat)
    requires info.Valid() && i < |vs| && vs[i].title == win.title && vs[i].titleLen == win.titleLen
    requires lx == LabelEnd(vs[..i]) && tbY == TaskbarTop(info)
    modifies buf
    ensures Stroked(old(buf[..]), buf[..], info, LabelStrokes(info, font, vs, i, isFocused))
  {
    ghost var was, strokes := buf[..], [];
    StrokedNothing(was, info);
    if isFocused {
      var rect := Rect(lx - 4, tbY + 2, win.titleLen * FONT_WIDTH + 12, TASKBAR_HEIGHT - 4);
      FillRect(buf, info, rect, Color(0x28, 0x32, 0x44));
      StrokedThen(was, was, buf[..], info, strokes, Stroke(Box(rect), Color(0x28, 0x32, 0x44)));
      strokes := strokes + [Stroke(Box(rect), Color(0x28, 0x32, 0x44))];
    }
    ghost var mid := buf[..];
    var color := if isFocused then WHITE else Color(0x88, 0x8C, 0x96);
    DrawText(buf, info, font, lx, tbY + 6, win.title, color);
    StrokedThen(was, mid, buf[..], info, strokes, Stroke(Text(font, win.title, lx, tbY + 6), color));
    assert strokes + [LabelText(info, font, vs, i, isFocused)] == LabelStrokes(info, font, vs, i, isFocused);
  }

  /** The taskbar is the panel and then the labels from left to right, the focused window's highlighted. */
  lemma LastLabel(info: Info, font: Font, vs: seq<View>, i: nat, focused: Option<nat>)
    requires i < |vs|
    ensures TaskbarStrokes(info, font, [], focused) == PanelStrokes(info, font)
    ensures TaskbarStrokes(info, font, vs[..i + 1], focused) ==
            TaskbarStrokes(info, font, vs[..i], focused) + LabelStrokes(info, font, vs, i, focused == Some(vs[i].id))
  {
    assert vs[..i + 1][..i] == vs[..i];
  }

  method DrawPanel(buf: array<Byte>, info: Info, font: Font, tbY: nat)
    requires info.Valid() && tbY == TaskbarTop(info)
    modifies buf
    ensures Stroked(old(buf[..]), buf[..], info, PanelStrokes(info, font))
  {
    ghost var was, panel := buf[..], PanelStrokes(info, font);
    StrokedNothing(was, info);
    FillRect(buf, info, Rect(0, tbY, info.width, TASKBAR_HEIGHT), Color(0x1A, 0x1E, 0x28));
    StrokedThen(was, was, buf[..], info, [], panel[0]);
    ghost var mid := buf[..];
    FillRect(buf, info, Rect(0, tbY, info.width, 1), Color(0x33, 0x38, 0x44));
    StrokedThen(was, mid, buf[..], info, [] + [panel[0]], panel[1]);
    mid := buf[..];
    DrawText(buf, info, font, 8, tbY + 6, "r-os", Color(0xE0, 0xE4, 0xEC));
    StrokedThen(was, mid, buf[..], info, [] + [panel[0]] + [panel[1]], panel[2]);
    mid := buf[..];
    FillRect(buf, info, Rect(SEPARATOR_X, tbY + 4, 1, TASKBAR_HEIGHT - 8), Color(0x44, 0x48, 0x55));
    StrokedThen(was, mid, buf[..], info, [] + [panel[0]] + [panel[1]] + [panel[2]], panel[3]);
    assert [] + [panel[0]] + [panel[1]] + [panel[2]] + [panel[3]] == panel;
  }

  // ---------------------------------------------------------------------------
  // From the loops' effects to the desk
  // ---------------------------------------------------------------------------

  lemma LayersStart(buf: seq<Byte>, desk: Desk)
    requires desk.Valid() && |desk.background| == desk.screen.Bytes()
    requires Stroked(desk.background, buf, desk.screen, TaskbarStrokes(desk.screen, desk.font, desk.views, desk.focused))
    ensures ShowsLayers(buf, desk, 0)
  {
    forall px: nat, py: nat {:trigger ReadPixel(buf, desk.screen, px, py)} | desk.OnScreen(px, py)
      ensures ReadPixel(buf, desk.screen, px, py) == Layered(desk.Backdrop(px, py), desk.views[..0], desk.screen, px, py)
    {
      FullBufferHasPixel(desk.screen, px, py);
      hide ReadPixel;
    }
  }

  lemma LayersStep(before: seq<Byte>, after: seq<Byte>, desk: Desk, n: nat)
    requires desk.Valid() && n < |desk.views| && ShowsLayers(before, desk, n)
    requires Blitted(before, after, desk.screen, desk.views[n])
    ensures ShowsLayers(after, desk, n + 1)
  {
    forall px: nat, py: nat {:trigger ReadPixel(after, desk.screen, px, py)} | desk.OnScreen(px, py)
      ensures ReadPixel(after, desk.screen, px, py) ==
              Layered(desk.Backdrop(px, py), desk.views[..n + 1], desk.screen, px, py)
    {
      LayeredStep(desk.Backdrop(px, py), desk.views, n, desk.screen, px, py);
      hide ReadPixel;
      hide Layered;
      hide Look;
    }
  }

  /** The whole scene, no sprite. */
  ghost predicate ShowsScene(buf: seq<Byte>, desk: Desk)
    requires desk.Valid()
  {
    && |buf| == desk.screen.Bytes()
    && forall px: nat, py: nat {:trigger ReadPixel(buf, desk.screen, px, py)} :: desk.OnScreen(px, py) ==>
         ReadPixel(buf, desk.screen, px, py) == desk.Scene(px, py)
  }

  lemma LayersDone(buf: seq<Byte>, desk: Desk)
    requires desk.Valid() && ShowsLayers(buf, desk, |desk.views|)
    ensures ShowsScene(buf, desk)
  {
  }

  lemma SavedFromScene(saved: seq<Color>, buf: seq<Byte>, desk: Desk, cx: nat, cy: nat)
    requires desk.Valid() && ShowsScene(buf, desk) && SavedFrom(saved, buf, desk.screen, cx, cy)
    ensures SavedUnder(saved, desk, cx, cy)
  {
  }

  /** Drawing the sprite over the scene gives what the desk should look like. */
  lemma SpriteOverScene(before: seq<Byte>, after: seq<Byte>, desk: Desk, cx: nat, cy: nat)
    requires desk.Valid() && ShowsScene(before, desk) && SpriteDrawn(before, after, desk.screen, cx, cy, 0, CURSOR_H)
    ensures ShowsDesk(after, desk, cx, cy)
  {
    hide Sprite;
    forall px: nat, py: nat {:trigger ReadPixel(after, desk.screen, px, py)} | desk.OnScreen(px, py)
      ensures ReadPixel(after, desk.screen, px, py) == WithSprite(desk.Scene(px, py), cx, cy, px, py)
    {
      FullBufferHasPixel(desk.screen, px, py);
      hide ReadPixel;
    }
  }

  /** Putting back the saved colours under the sprite uncovers the scene. */
  lemma RestoredScene(before: seq<Byte>, after: seq<Byte>, desk: Desk, saved: seq<Color>, cx: nat, cy: nat)
    requires desk.Valid() && ShowsDesk(before, desk, cx, cy) && SavedUnder(saved, desk, cx, cy)
    requires Restored(before, after, desk.screen, saved, cx, cy, 0, CURSOR_H)
    ensures ShowsScene(after, desk)
  {
    hide Sprite;
    forall px: nat, py: nat {:trigger ReadPixel(after, desk.screen, px, py)} | desk.OnScreen(px, py)
      ensures ReadPixel(after, desk.screen, px, py) == desk.Scene(px, py)
    {
      FullBufferHasPixel(desk.screen, px, py);
      if Sprite(px - cx, py - cy).Some? {
        var sx: nat, sy: nat := px - cx, py - cy;
        assert saved[SavedIndex(sx, sy)] == desk.Scene(cx + sx, cy + sy);
      }
      hide ReadPixel;
    }
  }

  // ---------------------------------------------------------------------------
  // Window manager
  // ---------------------------------------------------------------------------

  /** The windows in painter's order, with the given bytes in their buffers. */
  ghost function Views(ws: seq<Window>, pictures: map<Window, seq<Byte>>): (vs: seq<View>)
    requires forall w :: w in ws ==> w in pictures
    ensures |vs| == |ws| && forall i :: 0 <= i < |ws| ==> vs[i] == ws[i].Showing(pictures[ws[i]])
  {
    seq(|ws|, i requires 0 <= i < |ws| => ws[i].Showing(pictures[ws[i]]))
  }

  /** The list with its element at `k` moved to the end and the rest in the same order. */
  function MovedToEnd<T>(s: seq<T>, k: int): seq<T> {
    if 0 <= k < |s| then s[..k] + s[k + 1..] + [s[k]] else s
  }

  /** Every window fits its buffer, ids are below `nextId`, and neither ids nor buffers are shared. */
  ghost predicate Registered(ws: seq<Window>, screen: Info, nextId: nat) {
    && (forall i :: 0 <= i < |ws| ==> ws[i].Sound(screen) && ws[i].id < nextId)
    && (forall i, j :: 0 <= i < |ws| && 0 <= j < |ws| && i != j ==> ws[i].id != ws[j].id && ws[i].buf != ws[j].buf)
  }

  lemma StillRegistered(ws: seq<Window>, screen: Info, nextId: nat, win: Window)
    requires Registered(ws, screen, nextId) && win.Sound(screen) && win.id == nextId
    requires forall w :: w in ws ==> w.buf != win.buf
    ensures Registered(ws + [win], screen, nextId + 1)
    ensures forall w :: w in ws ==> w.id < nextId
  {
  }

  lemma AllValid(ws: seq<Window>, screen: Info, nextId: nat)
    requires Registered(ws, screen, nextId)
    ensures forall w :: w in ws ==> w.info.Valid()
  {
  }

  lemma OwnBuffer(ws: seq<Window>, screen: Info, nextId: nat, win: Window)
    requires Registered(ws, screen, nextId) && win in ws
    ensures forall w :: w in ws ==> w.Sound(screen) && w.info.Valid()
    ensures forall w :: w in ws && w != win ==> w.id != win.id && w.buf != win.buf
  {
  }

  /** Index of the first window with this id, or -1. */
  function IndexOf(ws: seq<Window>, id: nat): (k: int)
    ensures -1 <= k < |ws|
    ensures k >= 0 ==> ws[k].id == id && forall i :: 0 <= i < k ==> ws[i].id != id
    ensures k < 0 ==> forall i :: 0 <= i < |ws| ==> ws[i].id != id
  {
    if ws == [] then -1
    else if ws[0].id == id then 0
    else
      var k := IndexOf(ws[1..], id);
      if k < 0 then -1 else k + 1
  }

  /** The z-order after focusing `id`: its window on top, the others in their old order. */
  function Promoted(ws: seq<Window>, id: nat): seq<Window> {
    MovedToEnd(ws, IndexOf(ws, id))
  }

  /** Promoting keeps the same windows, registered. */
  lemma PromotedRegistered(ws: seq<Window>, id: nat, screen: Info, nextId: nat)
    requires Registered(ws, screen, nextId)
    ensures Registered(Promoted(ws, id), screen, nextId)
    ensures (set w | w in Promoted(ws, id)) == (set w | w in ws)
  {
    var k, n, moved := IndexOf(ws, id), |ws|, Promoted(ws, id);
    if k >= 0 {
      assert forall i :: 0 <= i < n ==> moved[i] == ws[Before(n, k, i)];
      hide Window.Sound;
      hide IndexOf;
      hide Promoted;
      forall w
        ensures w in moved <==> w in ws
      {
        SameElements(ws, moved, k, w);
      }
      forall i, j | 0 <= i < n && 0 <= j < n && i != j
        ensures moved[i].id != moved[j].id && moved[i].buf != moved[j].buf
      {
        var i', j' := Before(n, k, i), Before(n, k, j);
        assert i' != j' && moved[i] == ws[i'] && moved[j] == ws[j'];
        hide *;
      }
    }
  }

  /** If some window has this id, it is on top afterwards; if none has, nothing moves. */
  lemma PromotedOnTop(ws: seq<Window>, id: nat)
    ensures |Promoted(ws, id)| == |ws|
    ensures (exists i :: 0 <= i < |ws| && ws[i].id == id) ==> Promoted(ws, id)[|ws| - 1].id == id
    ensures (forall i :: 0 <= i < |ws| ==> ws[i].id != id) ==> Promoted(ws, id) == ws
  {
  }

  /** Any two windows below the promoted one were in the same order before. */
  lemma PromotedKeepsOrder(ws: seq<Window>, id: nat, a: nat, b: nat)
    requires a < b < |ws| - 1
    ensures |Promoted(ws, id)| == |ws|
    ensures exists a', b' :: 0 <= a' < b' < |ws| && ws[a'] == Promoted(ws, id)[a] && ws[b'] == Promoted(ws, id)[b]
  {
    var k := IndexOf(ws, id);
    var a', b' := if k < 0 then a else Before(|ws|, k, a), if k < 0 then b else Before(|ws|, k, b);
    assert ws[a'] == Promoted(ws, id)[a] && ws[b'] == Promoted(ws, id)[b];
  }

  /** The window with the focus is the last in painter's order. */
  ghost predicate Raised(ws: seq<Window>, focused: Option<nat>) {
    |ws| > 0 && focused == Some(ws[|ws| - 1].id)
  }

  /** Wherever the raised window reaches, it is the one that is shown and that a click is for. */
  lemma RaisedIsShown(ws: seq<Window>, focused: Option<nat>, desk: Desk, px: nat, py: nat)
    requires Raised(ws, focused) && Describes(ws, desk.views) && desk.Valid()
    requires var w := ws[|ws| - 1]; w.x <= px < w.x + w.width && w.y <= py < w.y + w.height
    ensures Topmost(desk.views, px, py) == |ws| - 1
    ensures desk.Scene(px, py) == OwnPixel(desk.screen, desk.views[|ws| - 1], px, py)
    ensures py < TaskbarTop(desk.screen) ==> ClickTarget(desk, px, py) == focused
  {
  }

  lemma SameElements<T>(s: seq<T>, moved: seq<T>, k: nat, x: T)
    requires k < |s| && |moved| == |s|
    requires forall i :: 0 <= i < |s| ==> moved[i] == s[Before(|s|, k, i)]
    ensures x in moved <==> x in s
  {
    if x in s {
      var i :| 0 <= i < |s| && s[i] == x;
      var j := if i == k then |s| - 1 else if i < k then i else i - 1;
      assert Before(|s|, k, j) == i && moved[j] == x;
    }
  }

  /** Where the element at position i of MovedToEnd was before the move. */
  function Before(n: nat, k: nat, i: nat): (j: nat)
    requires k < n && i < n
    ensures j < n
  {
    if i == n - 1 then k else if i < k then i else i + 1
  }

  ghost function BufsOf(ws: set<Window>): set<array<Byte>> {
    set w | w in ws :: w.buf
  }

  ghost function PicturesOf(ws: set<Window>): map<Window, seq<Byte>>
    reads BufsOf(ws)
  {
    map w | w in ws :: w.buf[..]
  }

  class WindowManager {
    var windows: seq<Window>
    var focused: Option<nat>
    var nextId: nat
    const cursor: CursorState
    const screen: Info
    const font: Font
    const decode: Decoder
    var needsComposite: bool
    const backBuf: array<Byte>
    const bgCache: array<Byte>

    ghost function Bufs(): set<array<Byte>>
      reads this
    {
      BufsOf(Members())
    }

    /** The current bytes of every window's buffer. */
    ghost function Pictures(): map<Window, seq<Byte>>
      reads this, Bufs()
    {
      PicturesOf(Members())
    }

    ghost function Members(): set<Window>
      reads this
    {
      set w | w in windows
    }

    /** Sizes agree, ids and buffers are not shared, the cursor is on the screen. */
    ghost predicate Sound()
      reads this, cursor
    {
      && screen.Valid() && screen.stride == screen.width && cursor.Sound(screen)
      && backBuf.Length == screen.Bytes() && bgCache.Length == screen.Bytes() && backBuf != bgCache
      && Registered(windows, screen, nextId) && backBuf !in Bufs() && bgCache !in Bufs()
    }

    /** Every window's chrome is as its focus calls for. */
    ghost predicate ChromeRight()
      reads this, Bufs()
    {
      ChromeMatches(Pictures(), font, focused)
    }

    lemma SamePictures()
      requires Sound()
      ensures ContentsKept(Pictures(), Pictures())
    {
      AllValid(windows, screen, nextId);
      ContentsKeptRefl(Pictures());
    }

    /** What the screen should show. */
    ghost function Target(): Desk
      reads this, bgCache, Bufs()
    {
      Desk(screen, font, bgCache[..], Views(windows, Pictures()), focused)
    }

    /** The frame buffer is none of the manager's own buffers. */
    ghost predicate Separate(fb: array<Byte>)
      reads this
    {
      fb.Length == screen.Bytes() && fb !in {backBuf, bgCache} && fb !in Bufs()
    }

    /** The frame buffer shows the desk with the sprite where the cursor is, and the scene under
        the sprite is saved. */
    ghost predicate UpToDate(fb: array<Byte>)
      requires Sound()
      reads this, cursor, cursor.savedBg, bgCache, Bufs(), fb
    {
      && cursor.visible
      && ShowsDesk(fb[..], Target(), cursor.x, cursor.y)
      && SavedUnder(cursor.savedBg[..], Target(), cursor.x, cursor.y)
    }

    /** The cache invariant: whenever no composite is pending the frame buffer is up to date. */
    ghost predicate InSync(fb: array<Byte>)
      requires Sound()
      reads this, cursor, cursor.savedBg, bgCache, Bufs(), fb
    {
      !needsComposite ==> UpToDate(fb)
    }

    constructor (screen: Info, font: Font, decode: Decoder, background: array<Byte>)
      requires screen.Valid() && screen.stride == screen.width && screen.width > 0 && screen.height > 0
      requires background.Length == screen.Bytes()
      ensures Sound() && ChromeRight() && this.screen == screen && this.font == font && this.decode == decode && bgCache == background
      ensures windows == [] && focused == None && needsComposite
      ensures fresh(backBuf) && fresh(cursor) && fresh(cursor.savedBg)
    {
      this.screen, this.font, this.decode := screen, font, decode;
      windows, focused, nextId, needsComposite := [], None, 0, true;
      cursor := new CursorState(screen.width, screen.height);
      backBuf := new Byte[screen.Bytes()](_ => 0);
      bgCache := background;
    }

    /** Position of the window with this id in the list, or -1. */
    method Position(id: nat) returns (k: int)
      ensures k == IndexOf(windows, id)
    {
      for i := 0 to |windows|
        invariant forall j :: 0 <= j < i ==> windows[j].id != id
      {
        if windows[i].id == id {
          return i;
        }
      }
      return -1;
    }

    /** `title` is cut to MAX_TITLE bytes and then decoded. */
    method CreateWindow(x: nat, y: nat, width: nat, height: nat, title: seq<Byte>) returns (id: nat)
      requires Sound()
      modifies this
      ensures Sound() && (old(ChromeRight()) ==> ChromeRight()) && needsComposite
      ensures id == old(nextId) && nextId == id + 1
      ensures |windows| == old(|windows|) + 1 && windows[..|windows| - 1] == old(windows)
      ensures var w := windows[|windows| - 1];
              && fresh(w) && fresh(w.buf) && w.id == id
              && w.titleLen == Min(|title|, MAX_TITLE) && w.title == decode(title[..w.titleLen])
              && w.x == x && w.y == y && w.width == width && w.height == height && w.console == None
              && BlackInside(w.buf[..], w.info, Interior(w.width, w.height))
              && Pictures() == old(Pictures())[w := w.buf[..]]
      ensures focused == if old(focused) == None then Some(id) else old(focused)
    {
      hide HasChrome;
      hide ChromeMatches;
      hide BlackInside;
      hide Window.Sound;
      hide Interior;
      hide Registered;
      ghost var was, wasFocused := Pictures(), focused;
      id := nextId;
      var isFocused := focused == None || focused == Some(id);
      var tlen := Min(|title|, MAX_TITLE);
      var win := NewWindow(id, x, y, width, height, decode(title[..tlen]), tlen, isFocused);
      Push(win);
      if focused == None {
        GiveFocus(id);
      }
      RequestComposite();
      ChromeAdded(was, Pictures(), font, wasFocused, focused, win);
    }

    method Push(win: Window)
      requires Sound() && win.Sound(screen) && win.id == nextId && win.info.Valid()
      requires win.buf !in {backBuf, bgCache} && win.buf !in Bufs()
      modifies this`windows, this`nextId
      ensures Sound() && windows == old(windows) + [win] && nextId == old(nextId) + 1
      ensures Members() == old(Members()) + {win} && Pictures() == old(Pictures())[win := win.buf[..]]
      ensures forall w :: w in old(Members()) ==> w.id < win.id
    {
      hide Registered;
      hide Window.Sound;
      StillRegistered(windows, screen, nextId, win);
      windows := windows + [win];
      nextId := nextId + 1;
      assert Members() == old(Members()) + {win};
    }

    method NewWindow(id: nat, x: nat, y: nat, width: nat, height: nat, title: string, titleLen: nat, isFocused: bool)
      returns (win: Window)
      requires screen.Valid() && |title| <= titleLen <= MAX_TITLE
      ensures fresh(win) && fresh(win.buf) && win.Sound(screen) && win.info.Valid()
      ensures HasChrome(win.Snapshot(), win.info, font, isFocused)
      ensures BlackInside(win.buf[..], win.info, Interior(width, height)) && win.console == None
      ensures win.id == id && win.title == title && win.titleLen == titleLen
      ensures win.x == x && win.y == y && win.width == width && win.height == height
    {
      win := new Window(id, x, y, width, height, title, titleLen, screen);
      ghost var blank := win.buf[..];
      ZerosAreBlack(blank, win.info, Interior(width, height));
      hide *;
      win.DrawChrome(screen, font, isFocused);
      StaysBlack(blank, win.buf[..], win.info, Interior(width, height));
    }

    /** A composite becomes due, and the window is dirty if it exists. */
    method MarkDirty(id: nat)
      requires Sound()
      modifies this`needsComposite, Members()`dirty
      ensures Sound() && needsComposite && Members() == old(Members()) && Pictures() == old(Pictures())
      ensures forall w :: w in windows ==> w.dirty == (old(w.dirty) || w.id == id)
    {
      hide IndexOf;
      var k := Position(id);
      if k >= 0 {
        OwnBuffer(windows, screen, nextId, windows[k]);
        hide Registered;
        windows[k].dirty := true;
      }
      needsComposite := true;
    }

    method RequestComposite()
      requires Sound()
      modifies this`needsComposite
      ensures Sound() && needsComposite && Members() == old(Members()) && Pictures() == old(Pictures())
      ensures ChromeRight() == old(ChromeRight())
    {
      needsComposite := true;
    }

    /** Redraws the chrome of the window with this id, if there is one; inside its chrome and on every other
        window all colours stay. */
    method RedrawChrome(id: nat, isFocused: bool)
      requires Sound()
      modifies Members()`dirty, Bufs()
      ensures Redrawn(old(Pictures()), Pictures(), font, id, isFocused)
      ensures ContentsKept(old(Pictures()), Pictures())
      ensures forall w :: w in windows ==> w.dirty == (old(w.dirty) || w.id == id)
    {
      hide Redrawn;
      hide ContentsKept;
      hide Registered;
      hide IndexOf;
      var k := Position(id);
      if k >= 0 {
        RedrawWindow(windows[k], isFocused);
      } else {
        AllValid(windows, screen, nextId);
        NoneRedrawn(Pictures(), font, id, isFocused);
      }
    }

    method RedrawWindow(win: Window, isFocused: bool)
      requires Sound() && win in windows
      modifies win`dirty, win.buf
      ensures Redrawn(old(Pictures()), Pictures(), font, win.id, isFocused)
      ensures ContentsKept(old(Pictures()), Pictures())
      ensures win.dirty && forall w :: w in windows && w != win ==> w.id != win.id
    {
      hide Redrawn;
      hide ContentsKept;
      hide Registered;
      hide HasChrome;
      hide ContentKept;
      ghost var was := Pictures();
      OwnBuffer(windows, screen, nextId, win);
      win.DrawChrome(screen, font, isFocused);
      win.dirty := true;
      OneRedrawn(was, Pictures(), font, win.id, isFocused, win);
    }

    /** Focusing an existing, unfocused window moves it to the end of the list, keeps the others in
        order, moves the focused chrome to it and changes no content pixel of any window. */
    method FocusWindow(id: nat)
      requires Sound()
      modifies this`windows, this`focused, this`needsComposite, Members()`dirty, Bufs()
      ensures Sound() && (old(ChromeRight()) ==> ChromeRight()) && Members() == old(Members()) && focused == Some(id)
      ensures windows == if old(focused) == Some(id) then old(windows) else Promoted(old(windows), id)
      ensures old(focused) != Some(id) && (exists w :: w in old(windows) && w.id == id) ==> Raised(windows, focused)
      ensures if old(focused) == Some(id) then needsComposite == old(needsComposite) && Pictures() == old(Pictures())
              else needsComposite
      ensures ContentsKept(old(Pictures()), Pictures())
      ensures forall w :: w in Members() ==>
                w.dirty == (old(w.dirty) || (old(focused) != Some(id) && (w.id == id || old(focused) == Some(w.id))))
    {
      hide ChromeMatches;
      hide Registered;
      hide ContentsKept;
      hide Promoted;
      hide Views;
      PromotedOnTop(windows, id);
      if focused == Some(id) {
        SamePictures();
        return;
      }
      MoveFocus(id);
    }

    method MoveFocus(id: nat)
      requires Sound() && focused != Some(id)
      modifies this`windows, this`focused, this`needsComposite, Members()`dirty, Bufs()
      ensures Sound() && (old(ChromeRight()) ==> ChromeRight()) && Members() == old(Members())
      ensures focused == Some(id) && needsComposite && windows == Promoted(old(windows), id)
      ensures ContentsKept(old(Pictures()), Pictures())
      ensures forall w :: w in Members() ==> w.dirty == (old(w.dirty) || w.id == id || old(focused) == Some(w.id))
    {
      hide HasChrome;
      hide ContentKept;
      hide ContentsKept;
      hide Registered;
      hide Redrawn;
      hide ChromeMatches;
      hide Views;
      ghost var was := Pictures();
      hide Promoted;
      hide Window.Sound;
      hide CursorState.Sound;
      hide IndexOf;
      ReleaseFocus();
      ghost var mid := Pictures();
      BringToFront(id);
      RedrawChrome(id, true);
      ContentsKeptTrans(was, mid, Pictures());
      FocusMoved(was, mid, Pictures(), font, focused, id);
      GiveFocus(id);
    }

    method GiveFocus(id: nat)
      requires Sound()
      modifies this`focused, this`needsComposite
      ensures Sound() && focused == Some(id) && needsComposite
      ensures Members() == old(Members()) && Pictures() == old(Pictures())
    {
      focused := Some(id);
      needsComposite := true;
    }

    method ReleaseFocus()
      requires Sound()
      modifies Members()`dirty, Bufs()
      ensures if focused.Some? then Redrawn(old(Pictures()), Pictures(), font, focused.value, false)
              else Pictures() == old(Pictures())
      ensures ContentsKept(old(Pictures()), Pictures())
      ensures forall w :: w in windows ==> w.dirty == (old(w.dirty) || focused == Some(w.id))
    {
      if focused.Some? {
        RedrawChrome(focused.value, false);
      } else {
        SamePictures();
      }
    }

    method BringToFront(id: nat)
      requires Sound()
      modifies this`windows
      ensures Sound() && Members() == old(Members()) && Pictures() == old(Pictures())
      ensures windows == Promoted(old(windows), id)
    {
      var k := Position(id);
      PromotedRegistered(windows, id, screen, nextId);
      if k >= 0 {
        var win := windows[k];
        var promoted := windows[..k] + windows[k + 1..] + [win];
        assert promoted == Promoted(windows, id);
        hide *;
        Reorder(promoted);
      }
    }

    method Reorder(ws: seq<Window>)
      requires Sound() && Registered(ws, screen, nextId) && (set w | w in ws) == Members()
      modifies this`windows
      ensures Sound() && windows == ws
      ensures Members() == old(Members()) && Pictures() == old(Pictures())
    {
      assert forall w :: w in ws ==> w in Members();
      windows := ws;
    }

    method CopyBackground()
      requires Sound()
      modifies backBuf
      ensures Sound() && Pictures() == old(Pictures())
      ensures backBuf[..] == bgCache[..]
    {
      CopyBytes(backBuf, 0, bgCache, 0, backBuf.Length);
    }

    method ComposeTaskbar(ghost desk: Desk)
      requires Sound() && desk == Target()
      modifies backBuf
      ensures Sound() && Pictures() == old(Pictures())
      ensures Stroked(old(backBuf[..]), backBuf[..], screen, TaskbarStrokes(screen, font, desk.views, focused))
    {
      hide Stroked;
      hide TaskbarStrokes;
      DrawTaskbar(backBuf, screen, font, windows, focused, desk.views);
    }

    /** The cached background with the taskbar on it, on the back buffer. */
    method ComposeBackdrop()
      requires Sound()
      modifies backBuf
      ensures Sound() && Pictures() == old(Pictures())
      ensures ShowsLayers(backBuf[..], Target(), 0)
    {
      hide Stroked;
      hide ShowsLayers;
      hide TaskbarStrokes;
      hide PicturesOf;
      hide BufsOf;
      hide Registered;
      CopyBackground();
      ComposeTaskbar(Target());
      LayersStart(backBuf[..], Target());
    }

    /** One more window, over those already on the back buffer. */
    method ComposeLayer(i: nat)
      requires Sound() && i < |windows| && ShowsLayers(backBuf[..], Target(), i)
      modifies backBuf
      ensures Sound() && Pictures() == old(Pictures())
      ensures ShowsLayers(backBuf[..], Target(), i + 1)
    {
      ghost var before, desk := backBuf[..], Target();
      hide ShowsLayers;
      hide Blitted;
      assert desk.views[i] == windows[i].Snapshot();
      assert |before| == screen.Bytes();
      BlitWindow(backBuf, screen, windows[i]);
      LayersStep(before, backBuf[..], desk, i);
    }

    /** Steps 1 to 3 of a composite: background, taskbar, windows back to front, on the back buffer. */
    method ComposeScene()
      requires Sound()
      modifies backBuf
      ensures Sound() && Pictures() == old(Pictures())
      ensures ShowsScene(backBuf[..], Target())
    {
      ComposeBackdrop();
      for i := 0 to |windows|
        invariant Sound() && Pictures() == old(Pictures())
        invariant ShowsLayers(backBuf[..], Target(), i)
      {
        hide *;
        ComposeLayer(i);
      }
      LayersDone(backBuf[..], Target());
      hide *;
    }

    /** Redraws everything from scratch: afterwards the frame buffer is up to date. */
    method Composite(fb: array<Byte>)
      requires Sound() && Separate(fb)
      modifies this`needsComposite, backBuf, cursor`visible, cursor.savedBg, Members()`dirty, fb
      ensures Sound() && (old(ChromeRight()) ==> ChromeRight()) && Pictures() == old(Pictures())
      ensures !needsComposite && UpToDate(fb) && forall w :: w in windows ==> !w.dirty
    {
      hide ChromeMatches;
      hide Registered;
      hide WindowManager.UpToDate;
      Repaint(fb);
      Finish(fb);
    }

    /** Nothing is pending any more. */
    method Finish(fb: array<Byte>)
      requires Sound() && Separate(fb) && UpToDate(fb)
      modifies this`needsComposite, Members()`dirty
      ensures Sound() && (old(ChromeRight()) ==> ChromeRight()) && Pictures() == old(Pictures())
      ensures !needsComposite && UpToDate(fb) && forall w :: w in windows ==> !w.dirty
    {
      hide ShowsDesk;
      hide SavedUnder;
      hide ChromeMatches;
      hide Registered;
      needsComposite := false;
      ClearDirty();
    }

    /** Composes everything on the back buffer and flips it to the frame buffer. */
    method Repaint(fb: array<Byte>)
      requires Sound() && Separate(fb)
      modifies backBuf, cursor`visible, cursor.savedBg, fb
      ensures Sound() && Pictures() == old(Pictures()) && UpToDate(fb)
    {
      hide ShowsScene;
      hide ShowsDesk;
      hide SavedUnder;
      hide Registered;
      ComposeScene();
      DrawSprite(backBuf);
      Flip(fb);
    }

    /** Copies the back buffer to the frame buffer in one go. */
    method Flip(fb: array<Byte>)
      requires Sound() && Separate(fb)
      modifies fb
      ensures Sound() && Pictures() == old(Pictures())
      ensures fb[..] == backBuf[..]
    {
      CopyBytes(fb, 0, backBuf, 0, fb.Length);
    }

    /** Saves the scene under the sprite and draws the sprite, on a buffer that shows the bare scene. */
    method DrawSprite(buf: array<Byte>)
      requires Sound() && buf !in Bufs() && buf != bgCache && ShowsScene(buf[..], Target())
      modifies buf, cursor`visible, cursor.savedBg
      ensures Sound() && Pictures() == old(Pictures())
      ensures cursor.visible && ShowsDesk(buf[..], Target(), cursor.x, cursor.y)
      ensures SavedUnder(cursor.savedBg[..], Target(), cursor.x, cursor.y)
    {
      hide ShowsScene;
      hide ShowsDesk;
      hide SavedUnder;
      hide SavedFrom;
      hide SpriteDrawn;
      hide Registered;
      ghost var desk := Target();
      cursor.SaveBackground(buf, screen);
      SavedFromScene(cursor.savedBg[..], buf[..], desk, cursor.x, cursor.y);
      ghost var scene := buf[..];
      cursor.Draw(buf, screen);
      SpriteOverScene(scene, buf[..], desk, cursor.x, cursor.y);
      cursor.visible := true;
    }

    method ClearDirty()
      requires Sound()
      modifies Members()`dirty
      ensures Sound() && Pictures() == old(Pictures())
      ensures forall w :: w in windows ==> !w.dirty
    {
      for i := 0 to |windows|
        invariant forall j :: 0 <= j < i ==> !windows[j].dirty
      {
        windows[i].dirty := false;
      }
    }

    /** The id of the window whose taskbar label column mx belongs to. */
    method LabelAt(mx: nat, ghost vs: seq<View>) returns (target: Option<nat>)
      requires Describes(windows, vs)
      ensures target == TaskbarTarget(vs, mx)
      ensures target.Some? ==> exists w :: w in windows && w.id == target.value
    {
      var lx := SEPARATOR_X + 8;
      for i := 0 to |windows|
        invariant lx == LabelEnd(vs[..i])
        invariant forall j :: 0 <= j < i ==> !LabelHit(vs, j, mx)
        invariant i == 0 || mx >= lx || mx < LabelEnd([]) - 4
      {
        var labelW := windows[i].titleLen * FONT_WIDTH + 16;
        assert vs[..i + 1][..i] == vs[..i];
        LabelEndGrows(vs, 0, i);
        assert vs[..0] == [];
        if mx >= Monus(lx, 4) && mx < lx + labelW {
          TaskbarTargetIs(vs, i, mx);
          return Some(windows[i].id);
        }
        lx := lx + labelW;
      }
      return None;
    }

    /** The id of the topmost window at (mx, my). */
    method WindowAt(mx: nat, my: nat, ghost vs: seq<View>) returns (target: Option<nat>)
      requires Describes(windows, vs)
      ensures target == DeskTarget(vs, mx, my)
      ensures target.Some? ==> exists w :: w in windows && w.id == target.value
    {
      var i := |windows|;
      while i > 0
        invariant 0 <= i <= |windows|
        invariant forall j :: i <= j < |windows| ==> !vs[j].Covers(mx, my)
      {
        i := i - 1;
        var win := windows[i];
        if mx >= win.x && mx < win.x + win.width && my >= win.y && my < win.y + win.height {
          return Some(win.id);
        }
      }
      return None;
    }

    /** A click in the taskbar focuses the window whose label was hit. */
    method HandleTaskbarClick(mx: nat)
      requires Sound()
      modifies this`windows, this`focused, this`needsComposite, Members()`dirty, Bufs()
      ensures Sound() && (old(ChromeRight()) ==> ChromeRight()) && Members() == old(Members())
      ensures Refocused(old(windows), windows, old(focused), focused, TaskbarTarget(old(Target().views), mx))
      ensures focused != old(focused) ==> Raised(windows, focused)
      ensures if focused == old(focused) then needsComposite == old(needsComposite) && Pictures() == old(Pictures())
              else needsComposite
      ensures ContentsKept(old(Pictures()), Pictures())
    {
      hide Raised;
      hide ChromeMatches;
      hide Registered;
      hide Refocused;
      hide ContentsKept;
      hide TaskbarTarget;
      var target := LabelAt(mx, Target().views);
      FocusTarget(target);
    }

    /** Focuses the target of a click, if there is one. */
    method FocusTarget(target: Option<nat>)
      requires Sound() && (target.Some? ==> exists w :: w in windows && w.id == target.value)
      modifies this`windows, this`focused, this`needsComposite, Members()`dirty, Bufs()
      ensures Sound() && (old(ChromeRight()) ==> ChromeRight()) && Members() == old(Members())
      ensures Refocused(old(windows), windows, old(focused), focused, target)
      ensures focused != old(focused) ==> Raised(windows, focused)
      ensures if focused == old(focused) then needsComposite == old(needsComposite) && Pictures() == old(Pictures())
              else needsComposite
      ensures ContentsKept(old(Pictures()), Pictures())
    {
      hide Raised;
      hide ChromeMatches;
      hide Registered;
      hide Promoted;
      hide Views;
      hide ContentsKept;
      match target {
        case Some(id) => FocusWindow(id);
        case None => SamePictures();
      }
    }

    /** The left button at (mx, my): the taskbar takes clicks in its rows, windows take the others. */
    method Click(mx: nat, my: nat)
      requires Sound()
      modifies this`windows, this`focused, this`needsComposite, Members()`dirty, Bufs()
      ensures Sound() && (old(ChromeRight()) ==> ChromeRight()) && Members() == old(Members())
      ensures Refocused(old(windows), windows, old(focused), focused, ClickTarget(old(Target()), mx, my))
      ensures focused != old(focused) ==> Raised(windows, focused)
      ensures needsComposite == (old(needsComposite) || my >= TaskbarTop(screen) || focused != old(focused))
      ensures focused == old(focused) ==> Pictures() == old(Pictures())
      ensures ContentsKept(old(Pictures()), Pictures())
    {
      hide Raised;
      hide ChromeMatches;
      hide Registered;
      hide Refocused;
      hide LabelHit;
      hide ContentsKept;
      hide TaskbarTarget;
      hide DeskTarget;
      var tbY := Monus(screen.height, TASKBAR_HEIGHT);
      if my >= tbY {
        HandleTaskbarClick(mx);
        RequestComposite();
      } else {
        var clicked := WindowAt(mx, my, Target().views);
        FocusTarget(clicked);
      }
    }

    /** Puts back the saved pixels: in sync and with no composite pending, the bare scene remains. */
    method Uncover(fb: array<Byte>)
      requires Sound() && Separate(fb) && InSync(fb)
      modifies fb
      ensures Sound() && Pictures() == old(Pictures())
      ensures !needsComposite ==> ShowsScene(fb[..], Target())
    {
      ghost var before, desk, saved := fb[..], Target(), cursor.savedBg[..];
      cursor.RestoreBackground(fb, screen);
      if !needsComposite {
        RestoredScene(before, fb[..], desk, saved, cursor.x, cursor.y);
      }
    }

    /** One mouse event as the kernel delivers it: composite at once if the incremental path cannot
        show the result. The frame buffer always ends up to date. */
    method OnMouse(event: MouseEvent, fb: array<Byte>)
      requires Sound() && Separate(fb) && InSync(fb)
      modifies this`windows, this`focused, this`needsComposite, Members()`dirty, Bufs(), cursor, cursor.savedBg, backBuf, fb
      ensures Sound() && (old(ChromeRight()) ==> ChromeRight())
      ensures Members() == old(Members()) && Separate(fb) && !needsComposite && UpToDate(fb)
      ensures cursor.x == Clamp(old(cursor.x) + event.dx, 0, screen.width - 1)
      ensures cursor.y == Clamp(old(cursor.y) - event.dy, 0, screen.height - 1)
      ensures Refocused(old(windows), windows, old(focused), focused,
                        if event.left then ClickTarget(old(Target()), cursor.x, cursor.y) else None)
      ensures focused != old(focused) ==> Raised(windows, focused)
      ensures ContentsKept(old(Pictures()), Pictures())
    {
      HandleMouse(event, fb);
      hide Raised;
      hide ContentsKept;
      hide ShowsDesk;
      hide SavedUnder;
      hide ChromeMatches;
      hide Registered;
      if needsComposite {
        Composite(fb);
      }
    }

    method MoveCursor(dx: int, dy: int)
      requires Sound()
      modifies cursor`x, cursor`y
      ensures Sound() && Pictures() == old(Pictures())
      ensures cursor.x == Clamp(old(cursor.x) + dx, 0, screen.width - 1)
      ensures cursor.y == Clamp(old(cursor.y) - dy, 0, screen.height - 1)
    {
      cursor.ApplyDelta(dx, dy);
    }

    /** The incremental path: moves the sprite, handles a click, and redraws only the sprite unless
        something else changed. It keeps the frame buffer in sync. */
    method HandleMouse(event: MouseEvent, fb: array<Byte>)
      requires Sound() && Separate(fb) && InSync(fb)
      modifies this`windows, this`focused, this`needsComposite, Members()`dirty, Bufs(), cursor, cursor.savedBg, fb
      ensures Sound() && (old(ChromeRight()) ==> ChromeRight())
      ensures Members() == old(Members()) && Separate(fb) && InSync(fb)
      ensures cursor.x == Clamp(old(cursor.x) + event.dx, 0, screen.width - 1)
      ensures cursor.y == Clamp(old(cursor.y) - event.dy, 0, screen.height - 1)
      ensures Refocused(old(windows), windows, old(focused), focused,
                        if event.left then ClickTarget(old(Target()), cursor.x, cursor.y) else None)
      ensures focused != old(focused) ==> Raised(windows, focused)
      ensures needsComposite ==
        (old(needsComposite) || (event.left && cursor.y >= TaskbarTop(screen)) || focused != old(focused))
      ensures focused == old(focused) ==> Pictures() == old(Pictures())
      ensures ContentsKept(old(Pictures()), Pictures())
    {
      hide Raised;
      hide ContentsKept;
      hide ChromeMatches;
      hide Registered;
      hide Refocused;
      hide ShowsScene;
      hide ShowsDesk;
      hide SavedUnder;
      hide ClickTarget;
      hide PicturesOf;
      hide BufsOf;
      Uncover(fb);
      MoveCursor(event.dx, event.dy);
      Press(event.left, cursor.x, cursor.y);
      Recover(fb);
    }

    /** The left button, if it is down. */
    method Press(left: bool, mx: nat, my: nat)
      requires Sound()
      modifies this`windows, this`focused, this`needsComposite, Members()`dirty, Bufs()
      ensures Sound() && (old(ChromeRight()) ==> ChromeRight()) && Members() == old(Members())
      ensures Refocused(old(windows), windows, old(focused), focused,
                        if left then ClickTarget(old(Target()), mx, my) else None)
      ensures focused != old(focused) ==> Raised(windows, focused)
      ensures needsComposite == (old(needsComposite) || (left && my >= TaskbarTop(screen)) || focused != old(focused))
      ensures focused == old(focused) ==> Pictures() == old(Pictures())
      ensures ContentsKept(old(Pictures()), Pictures())
    {
      if left {
        Click(mx, my);
      } else {
        SamePictures();
      }
    }

    /** The sprite at its new position, unless a composite will draw it. */
    method Recover(fb: array<Byte>)
      requires Sound() && Separate(fb) && (!needsComposite ==> ShowsScene(fb[..], Target()))
      modifies fb, cursor`visible, cursor.savedBg
      ensures Sound() && Pictures() == old(Pictures()) && InSync(fb)
    {
      hide ShowsScene;
      hide ShowsDesk;
      hide SavedUnder;
      if !needsComposite {
        DrawSprite(fb);
      }
    }
  }

  /** Buffers that show the same desk with the sprite in the same place show the same colours. */
  lemma ShowsDeskUnique(a: seq<Byte>, b: seq<Byte>, desk: Desk, cx: int, cy: int)
    requires desk.Valid() && ShowsDesk(a, desk, cx, cy) && ShowsDesk(b, desk, cx, cy)
    ensures SameColors(a, b, desk.screen)
  {
  }

  method CompositeElsewhere(wm: WindowManager, fb: array<Byte>, other: array<Byte>)
    requires wm.Sound() && wm.Separate(fb) && wm.Separate(other) && fb != other && wm.UpToDate(fb)
    modifies wm`needsComposite, wm.backBuf, wm.cursor`visible, wm.cursor.savedBg, wm.Members()`dirty, other
    ensures wm.Sound() && wm.Pictures() == old(wm.Pictures()) && wm.UpToDate(fb) && !wm.needsComposite
    ensures SameColors(fb[..], other[..], wm.screen)
  {
    ghost var shown, desk := fb[..], wm.Target();
    wm.Composite(other);
    ShowsDeskUnique(shown, other[..], desk, wm.cursor.x, wm.cursor.y);
  }

  /** What a click on `target` does to focus and z-order. */
  ghost predicate Refocused(was: seq<Window>, now: seq<Window>, wasFocused: Option<nat>, focused: Option<nat>,
                            target: Option<nat>)
  {
    if target == None || target == wasFocused then now == was && focused == wasFocused
    else focused == target && now == Promoted(was, target.value)
  }

  /** Focused and unfocused chrome can be told apart on every window at least three pixels wide and
      high, so no such window ever carries both. */
  lemma ChromeTellsFocus(v: View, info: Info, font: Font)
    requires info.Valid() && info.width == v.width && info.height == v.height && |v.pixels| == info.Bytes()
    requires v.width >= 3 && v.height >= 3
    ensures !(HasChrome(v, info, font, true) && HasChrome(v, info, font, false))
  {
    FullBufferHasPixel(info, 1, 1);
    BarPixel(v, font, true);
    BarPixel(v, font, false);
    var shown := ReadPixel(v.pixels, info, 1, 1);
    assert HasChrome(v, info, font, true) ==> shown == Shade(info.format, TitleColor(true));
    assert HasChrome(v, info, font, false) ==> shown == Shade(info.format, TitleColor(false));
  }

  /** Pixel (1, 1) is title bar: inside the border and left of the title. */
  lemma BarPixel(v: View, font: Font, focused: bool)
    requires v.width >= 3 && v.height >= 3
    ensures TopStroke(ChromeStrokes(v.width, v.height, v.title, font, focused), 1, 1) == Some(TitleColor(focused))
  {
    var strokes := ChromeStrokes(v.width, v.height, v.title, font, focused);
    assert strokes == [strokes[0]] + strokes[1..];
    TopStrokeConcat([strokes[0]], strokes[1..], 1, 1);
    NoStroke(strokes[1..], 1, 1);
    assert [strokes[0]][..0] == [];
  }
}
