/** What the screen is meant to show, as plain values: strokes, window layers, the taskbar and
    the mouse sprite. The window manager's loops and its cursor cache are proved against this. */
module Compositor {
  import opened Prelude
  import opened Pixels
  import opened Drawing

  const TITLE_BAR_HEIGHT := 24
  const WINDOW_PADDING := 6
  const TASKBAR_HEIGHT := 28
  const MAX_TITLE := 32

  // ---------------------------------------------------------------------------
  // Strokes: a list of shapes painted one after the other
  // ---------------------------------------------------------------------------

  datatype Stroke = Stroke(shape: Shape, color: Color)

  /** The colour of the last stroke that covers the pixel, if any does. */
  function TopStroke(strokes: seq<Stroke>, px: int, py: int): Option<Color> {
    if strokes == [] then None
    else
      var last := strokes[|strokes| - 1];
      if last.shape.Covers(px, py) then Some(last.color) else TopStroke(strokes[..|strokes| - 1], px, py)
  }

  /** What a pixel of colour `base` shows once the strokes are painted over it. */
  function Look(base: Color, strokes: seq<Stroke>, info: Info, px: int, py: int): Color {
    match TopStroke(strokes, px, py)
    case None => base
    case Some(c) => Shade(info.format, c)
  }

  ghost predicate Stroked(before: seq<Byte>, after: seq<Byte>, info: Info, strokes: seq<Stroke>)
    requires info.Valid()
  {
    && |after| == |before|
    && forall px: nat, py: nat {:trigger ReadPixel(after, info, px, py)} ::
         ReadPixel(after, info, px, py) ==
         if info.Has(|before|, px, py) then Look(ReadPixel(before, info, px, py), strokes, info, px, py)
         else ReadPixel(before, info, px, py)
  }

  lemma StrokedNothing(buf: seq<Byte>, info: Info)
    requires info.Valid()
    ensures Stroked(buf, buf, info, [])
  {
  }

  lemma StrokedThen(before: seq<Byte>, mid: seq<Byte>, after: seq<Byte>, info: Info, strokes: seq<Stroke>, s: Stroke)
    requires info.Valid() && Stroked(before, mid, info, strokes) && Painted(mid, after, info, s.shape, s.color)
    ensures Stroked(before, after, info, strokes + [s])
  {
  }

  lemma {:induction false} TopStrokeConcat(a: seq<Stroke>, b: seq<Stroke>, px: int, py: int)
    ensures TopStroke(a + b, px, py) ==
            if TopStroke(b, px, py).Some? then TopStroke(b, px, py) else TopStroke(a, px, py)
  {
    if b == [] {
      assert a + b == a;
    } else {
      var n := |b| - 1;
      TopStrokeConcat(a, b[..n], px, py);
      assert (a + b)[..|a + b| - 1] == a + b[..n];
    }
  }

  lemma StrokedConcat(before: seq<Byte>, mid: seq<Byte>, after: seq<Byte>, info: Info, a: seq<Stroke>, b: seq<Stroke>)
    requires info.Valid() && Stroked(before, mid, info, a) && Stroked(mid, after, info, b)
    ensures Stroked(before, after, info, a + b)
  {
    forall px: nat, py: nat {:trigger ReadPixel(after, info, px, py)}
      ensures ReadPixel(after, info, px, py) ==
              if info.Has(|before|, px, py) then Look(ReadPixel(before, info, px, py), a + b, info, px, py)
              else ReadPixel(before, info, px, py)
    {
      TopStrokeConcat(a, b, px, py);
      hide ReadPixel;
      hide TopStroke;
    }
  }

  // ---------------------------------------------------------------------------
  // Windows
  // ---------------------------------------------------------------------------

  /** A window at one moment. `title` is the decoded title, `titleLen` its length in bytes. */
  datatype View = View(id: nat, x: nat, y: nat, width: nat, height: nat, title: string, titleLen: nat,
                       pixels: seq<Byte>)
  {
    predicate Covers(px: int, py: int) {
      x <= px < x + width && y <= py < y + height
    }
  }

  /** Where a width x height window's owner may draw, in the window's own coordinates. */
  function ContentRect(width: nat, height: nat): Rect {
    var titleH := Min(TITLE_BAR_HEIGHT, height);
    Rect(WINDOW_PADDING, titleH + WINDOW_PADDING,
         Monus(width, WINDOW_PADDING * 2), Monus(height, titleH + WINDOW_PADDING * 2))
  }

  /** Everything below the title bar and inside the border. */
  function Interior(width: nat, height: nat): Rect {
    var titleH := Min(TITLE_BAR_HEIGHT, height);
    Rect(1, titleH, Monus(width, 2), Monus(height, titleH + 1))
  }

  function TitleColor(focused: bool): Color {
    if focused then Color(0x20, 0x3A, 0x58) else Color(0x18, 0x2A, 0x40)
  }

  const BORDER_COLOR := Color(0x55, 0x5A, 0x66)
  const TITLE_TEXT_COLOR := Color(0xF0, 0xF2, 0xF6)

  function ChromeStrokes(width: nat, height: nat, title: string, font: Font, focused: bool): seq<Stroke> {
    var titleH := Min(TITLE_BAR_HEIGHT, height);
    [Stroke(Box(Rect(0, 0, width, titleH)), TitleColor(focused))]
    + (if width == 0 || height == 0 then [] else [Stroke(Outline(0, 0, width - 1, height - 1), BORDER_COLOR)])
    + (if titleH < FONT_HEIGHT then []
       else [Stroke(Text(font, title, WINDOW_PADDING, (titleH - FONT_HEIGHT) / 2), TITLE_TEXT_COLOR)])
  }

  lemma TopTwo(a: Stroke, b: Stroke, px: int, py: int)
    ensures TopStroke([a], px, py) == if a.shape.Covers(px, py) then Some(a.color) else None
    ensures TopStroke([a, b], px, py) == if b.shape.Covers(px, py) then Some(b.color) else TopStroke([a], px, py)
  {
    assert [a][..0] == [] && [a, b][..1] == [a];
  }

  lemma TopThree(a: Stroke, b: Stroke, c: Stroke, px: int, py: int)
    ensures TopStroke([a, b, c], px, py) == if c.shape.Covers(px, py) then Some(c.color) else TopStroke([a, b], px, py)
  {
    assert [a, b, c][..2] == [a, b];
  }

  /** What chrome looks like at each pixel of a window: the title's pixels on top, six columns from the left
      and centred in a bar of 24 rows if that is at least 16 rows high, then the one-pixel border, then the bar. */
  lemma ChromeIs(width: nat, height: nat, title: string, font: Font, focused: bool, px: nat, py: nat)
    requires px < width && py < height
    ensures var bar := if height < 24 then height else 24;
            TopStroke(ChromeStrokes(width, height, title, font, focused), px, py) ==
            if bar >= 16 && Text(font, title, 6, (bar - 16) / 2).Covers(px, py) then Some(Color(0xF0, 0xF2, 0xF6))
            else if px == 0 || px == width - 1 || py == 0 || py == height - 1 then Some(Color(0x55, 0x5A, 0x66))
            else if py < bar then Some(if focused then Color(0x20, 0x3A, 0x58) else Color(0x18, 0x2A, 0x40))
            else None
  {
    var s := ChromeStrokes(width, height, title, font, focused);
    TopTwo(s[0], s[1], px, py);
    if height >= 16 {
      assert s == [s[0], s[1], s[2]];
      TopThree(s[0], s[1], s[2], px, py);
    } else {
      assert s == [s[0], s[1]];
    }
    hide TopStroke;
  }

  /** The interior is what is left without the border and the title bar. */
  lemma InteriorIs(width: nat, height: nat, px: int, py: int)
    ensures Interior(width, height).Contains(px, py) <==>
            1 <= px < width - 1 && (if height < 24 then height else 24) <= py < height - 1
  {
  }

  /** The content keeps six pixels from the window's edges and from the title bar. */
  lemma ContentIs(width: nat, height: nat, px: int, py: int)
    ensures ContentRect(width, height).Contains(px, py) <==>
            6 <= px < width - 6 && (if height < 24 then height else 24) + 6 <= py < height - 6
  {
  }

  /** The window's title bar, border and title text are all as draw_chrome(focused) leaves them. */
  ghost predicate HasChrome(v: View, info: Info, font: Font, focused: bool)
    requires info.Valid()
  {
    forall px: nat, py: nat {:trigger ReadPixel(v.pixels, info, px, py)} ::
      info.Has(|v.pixels|, px, py) && TopStroke(ChromeStrokes(v.width, v.height, v.title, font, focused), px, py).Some? ==>
        ReadPixel(v.pixels, info, px, py) ==
        Shade(info.format, TopStroke(ChromeStrokes(v.width, v.height, v.title, font, focused), px, py).value)
  }

  /** Index of the last window in painter's order that covers the point, or -1. */
  function Topmost(vs: seq<View>, px: int, py: int): (k: int)
    ensures -1 <= k < |vs|
    ensures k >= 0 ==> vs[k].Covers(px, py)
    ensures forall i :: k < i < |vs| ==> !vs[i].Covers(px, py)
  {
    if vs == [] then -1
    else if vs[|vs| - 1].Covers(px, py) then |vs| - 1
    else
      var k := Topmost(vs[..|vs| - 1], px, py);
      assert forall i :: 0 <= i < |vs| - 1 ==> vs[i] == vs[..|vs| - 1][i];
      k
  }

  function BufferInfo(screen: Info, width: nat, height: nat): Info {
    screen.(width := width, height := height, stride := width)
  }

  /** The window's own pixel under screen point (px, py). */
  function OwnPixel(screen: Info, v: View, px: nat, py: nat): Color
    requires screen.Valid() && v.Covers(px, py)
  {
    ReadPixel(v.pixels, BufferInfo(screen, v.width, v.height), px - v.x, py - v.y)
  }

  /** A pixel of colour `base` once the windows are blitted over it, back to front. */
  function Layered(base: Color, vs: seq<View>, screen: Info, px: nat, py: nat): Color
    requires screen.Valid()
  {
    var k := Topmost(vs, px, py);
    if k < 0 then base else OwnPixel(screen, vs[k], px, py)
  }

  /** Pixel (i, j) of the topmost window is shown i columns right of and j rows below its corner. */
  lemma TopmostPixel(base: Color, vs: seq<View>, screen: Info, k: nat, i: nat, j: nat)
    requires screen.Valid() && k < |vs| && i < vs[k].width && j < vs[k].height
    requires Topmost(vs, vs[k].x + i, vs[k].y + j) == k
    ensures Layered(base, vs, screen, vs[k].x + i, vs[k].y + j) ==
            ReadPixel(vs[k].pixels, Info(vs[k].width, vs[k].height, vs[k].width, screen.bpp, screen.format), i, j)
  {
    hide ReadPixel;
    hide Topmost;
    var x: nat, y: nat := vs[k].x + i, vs[k].y + j;
    assert vs[k].Covers(x, y) && x - vs[k].x == i && y - vs[k].y == j;
  }

  /** A window covers its own rectangle. */
  lemma CoversIs(v: View, px: int, py: int)
    ensures v.Covers(px, py) <==> Rect(v.x, v.y, v.width, v.height).Contains(px, py)
  {
  }

  // ---------------------------------------------------------------------------
  // Taskbar
  // ---------------------------------------------------------------------------

  const SEPARATOR_X := 8 + 4 * FONT_WIDTH + 6

  function LabelWidth(v: View): nat {
    v.titleLen * FONT_WIDTH + 16
  }

  /** Left edge of the label after the labels of `vs`. */
  function LabelEnd(vs: seq<View>): (x: nat)
    ensures x >= SEPARATOR_X + 8
  {
    if vs == [] then SEPARATOR_X + 8 else LabelEnd(vs[..|vs| - 1]) + LabelWidth(vs[|vs| - 1])
  }

  function TaskbarTop(screen: Info): nat {
    Monus(screen.height, TASKBAR_HEIGHT)
  }

  function PanelStrokes(screen: Info, font: Font): seq<Stroke> {
    var y := TaskbarTop(screen);
    [Stroke(Box(Rect(0, y, screen.width, TASKBAR_HEIGHT)), Color(0x1A, 0x1E, 0x28)),
     Stroke(Box(Rect(0, y, screen.width, 1)), Color(0x33, 0x38, 0x44)),
     Stroke(Text(font, "r-os", 8, y + 6), Color(0xE0, 0xE4, 0xEC)),
     Stroke(Box(Rect(SEPARATOR_X, y + 4, 1, TASKBAR_HEIGHT - 8)), Color(0x44, 0x48, 0x55))]
  }

  function LabelText(screen: Info, font: Font, vs: seq<View>, i: nat, focused: bool): Stroke
    requires i < |vs|
  {
    Stroke(Text(font, vs[i].title, LabelEnd(vs[..i]), TaskbarTop(screen) + 6),
           if focused then WHITE else Color(0x88, 0x8C, 0x96))
  }

  /** The strokes of window i's label: a highlight if it is focused, then its title. */
  function LabelStrokes(screen: Info, font: Font, vs: seq<View>, i: nat, focused: bool): seq<Stroke>
    requires i < |vs|
  {
    (if focused
     then [Stroke(Box(Rect(LabelEnd(vs[..i]) - 4, TaskbarTop(screen) + 2,
                           vs[i].titleLen * FONT_WIDTH + 12, TASKBAR_HEIGHT - 4)), Color(0x28, 0x32, 0x44))]
     else [])
    + [LabelText(screen, font, vs, i, focused)]
  }

  /** The panel at each of its pixels: "r-os" and a separator on a bar of 28 rows with a light top row. */
  lemma PanelIs(screen: Info, font: Font, px: nat, py: nat)
    requires px < screen.width && py < screen.height
    ensures var y := if screen.height < 28 then 0 else screen.height - 28;
            TopStroke(PanelStrokes(screen, font), px, py) ==
            if px == 46 && y + 4 <= py < y + 24 then Some(Color(0x44, 0x48, 0x55))
            else if Text(font, "r-os", 8, y + 6).Covers(px, py) then Some(Color(0xE0, 0xE4, 0xEC))
            else if py == y then Some(Color(0x33, 0x38, 0x44))
            else if py > y then Some(Color(0x1A, 0x1E, 0x28))
            else None
  {
    var s := PanelStrokes(screen, font);
    TopTwo(s[0], s[1], px, py);
    TopTwo(s[2], s[3], px, py);
    assert s == [s[0], s[1]] + [s[2], s[3]];
    TopStrokeConcat([s[0], s[1]], [s[2], s[3]], px, py);
    hide TopStroke;
  }

  /** A label at each pixel: the title's pixels on top of the highlight, which only the focused one has. */
  lemma LabelIs(screen: Info, font: Font, vs: seq<View>, i: nat, focused: bool, px: int, py: int)
    requires i < |vs|
    ensures var x, y := LabelEnd(vs[..i]), if screen.height < 28 then 0 else screen.height - 28;
            TopStroke(LabelStrokes(screen, font, vs, i, focused), px, py) ==
            if Text(font, vs[i].title, x, y + 6).Covers(px, py) then
              Some(if focused then Color(255, 255, 255) else Color(0x88, 0x8C, 0x96))
            else if focused && x - 4 <= px < x + 8 * vs[i].titleLen + 8 && y + 2 <= py < y + 26 then
              Some(Color(0x28, 0x32, 0x44))
            else None
  {
    var s := LabelStrokes(screen, font, vs, i, focused);
    if focused {
      assert s == [s[0], s[1]];
      TopTwo(s[0], s[1], px, py);
    } else {
      assert s == [s[0]];
      TopTwo(s[0], s[0], px, py);
    }
    hide TopStroke;
  }

  /** Labels start at column 54, and each leaves room for its title and sixteen columns. */
  lemma LabelStarts(vs: seq<View>, i: nat)
    requires i < |vs|
    ensures LabelEnd(vs[..0]) == 54 && LabelEnd(vs[..i + 1]) == LabelEnd(vs[..i]) + 8 * vs[i].titleLen + 16
  {
    assert vs[..0] == [] && vs[..i + 1][..i] == vs[..i];
  }

  function TaskbarStrokes(screen: Info, font: Font, vs: seq<View>, focused: Option<nat>): seq<Stroke> {
    if vs == [] then PanelStrokes(screen, font)
    else
      var n := |vs| - 1;
      TaskbarStrokes(screen, font, vs[..n], focused) + LabelStrokes(screen, font, vs, n, focused == Some(vs[n].id))
  }

  // ---------------------------------------------------------------------------
  // The scene and the sprite
  // ---------------------------------------------------------------------------

  datatype Desk = Desk(screen: Info, font: Font, background: seq<Byte>, views: seq<View>, focused: Option<nat>) {
    predicate Valid() {
      screen.Valid()
    }

    /** The taskbar over the background. */
    function Backdrop(px: nat, py: nat): Color
      requires Valid()
    {
      Look(ReadPixel(background, screen, px, py), TaskbarStrokes(screen, font, views, focused), screen, px, py)
    }

    /** Colour of an on-screen pixel without the mouse sprite: the topmost window there, else the
        taskbar, else the background. */
    function Scene(px: nat, py: nat): Color
      requires Valid()
    {
      Layered(Backdrop(px, py), views, screen, px, py)
    }

    predicate OnScreen(px: int, py: int) {
      0 <= px < screen.width && 0 <= py < screen.height
    }
  }

  const CURSOR_W := 12
  const CURSOR_H := 16

  const CURSOR_SPRITE: seq<string> := [
    "1...........",
    "11..........",
    "121.........",
    "1221........",
    "12221.......",
    "122221......",
    "1222221.....",
    "12222221....",
    "122222221...",
    "1222222221..",
    "12222211111.",
    "1221221.....",
    "121.1221....",
    "11..1221....",
    "1....1221...",
    ".....111...."
  ]

  /** The sprite's own colour at (sx, sy): outline black, body white, elsewhere transparent. */
  function Sprite(sx: int, sy: int): (c: Option<Color>)
    ensures c.Some? ==> 0 <= sx < CURSOR_W && 0 <= sy < CURSOR_H && c.value in {BLACK, WHITE}
  {
    if !(0 <= sx < CURSOR_W && 0 <= sy < CURSOR_H) then None
    else match SpriteRow(sy)[sx]
      case '1' => Some(BLACK)
      case '2' => Some(WHITE)
      case _ => None
  }

  /** The sprite is drawn upright from its table: '1' is black, '2' is white, anything else transparent. */
  lemma SpriteIs(sx: nat, sy: nat)
    requires sx < 12 && sy < 16
    ensures Sprite(sx, sy) == if CURSOR_SPRITE[sy][sx] == '1' then Some(BLACK)
                              else if CURSOR_SPRITE[sy][sx] == '2' then Some(WHITE)
                              else None
    ensures Sprite(0, 0) == Some(BLACK) && Sprite(1, 0) == None && Sprite(0, 14) == Some(BLACK) && Sprite(0, 15) == None
  {
  }

  function SpriteRow(sy: nat): (row: string)
    requires sy < CURSOR_H
    ensures |row| == CURSOR_W
  {
    CURSOR_SPRITE[sy]
  }

  /** A scene colour with the mouse sprite at (cx, cy) on top of it. */
  function WithSprite(scene: Color, cx: int, cy: int, px: int, py: int): Color {
    match Sprite(px - cx, py - cy)
    case None => scene
    case Some(c) => c
  }

  /** At every point, the taskbar's rows included: the topmost window's own pixel if a window covers it,
      else the taskbar's topmost stroke there, else the background. */
  lemma SceneIs(desk: Desk, px: nat, py: nat)
    requires desk.Valid()
    ensures forall k :: 0 <= k < |desk.views| && desk.views[k].Covers(px, py)
                        && (forall j :: k < j < |desk.views| ==> !desk.views[j].Covers(px, py)) ==>
              desk.Scene(px, py) == OwnPixel(desk.screen, desk.views[k], px, py)
    ensures (forall k :: 0 <= k < |desk.views| ==> !desk.views[k].Covers(px, py)) ==>
              desk.Scene(px, py) ==
              match TopStroke(TaskbarStrokes(desk.screen, desk.font, desk.views, desk.focused), px, py)
              case Some(c) => Shade(desk.screen.format, c)
              case None => ReadPixel(desk.background, desk.screen, px, py)
  {
    hide ReadPixel;
    hide TopStroke;
    hide TaskbarStrokes;
  }

  /** The sprite's corner is at the cursor; its opaque pixels hide the scene, and nothing else does. */
  lemma SpriteOnTop(scene: Color, cx: int, cy: int, px: int, py: int)
    ensures WithSprite(scene, cx, cy, px, py) ==
            if 0 <= px - cx < 12 && 0 <= py - cy < 16 && CURSOR_SPRITE[py - cy][px - cx] == '1' then BLACK
            else if 0 <= px - cx < 12 && 0 <= py - cy < 16 && CURSOR_SPRITE[py - cy][px - cx] == '2' then WHITE
            else scene
  {
    if 0 <= px - cx < 12 && 0 <= py - cy < 16 {
      SpriteIs(px - cx, py - cy);
    }
  }

  /** The screen shows exactly the desk with the sprite at (cx, cy). */
  ghost predicate ShowsDesk(fb: seq<Byte>, desk: Desk, cx: int, cy: int)
    requires desk.Valid()
  {
    && |fb| == desk.screen.Bytes()
    && forall px: nat, py: nat {:trigger ReadPixel(fb, desk.screen, px, py)} :: desk.OnScreen(px, py) ==>
        ReadPixel(fb, desk.screen, px, py) == WithSprite(desk.Scene(px, py), cx, cy, px, py)
  }

  /** The screen shows the backdrop with the first `n` windows blitted, and no sprite. */
  ghost predicate ShowsLayers(buf: seq<Byte>, desk: Desk, n: nat)
    requires desk.Valid() && n <= |desk.views|
  {
    && |buf| == desk.screen.Bytes()
    && forall px: nat, py: nat {:trigger ReadPixel(buf, desk.screen, px, py)} :: desk.OnScreen(px, py) ==>
         ReadPixel(buf, desk.screen, px, py) == Layered(desk.Backdrop(px, py), desk.views[..n], desk.screen, px, py)
  }

  lemma LayeredStep(base: Color, vs: seq<View>, n: nat, screen: Info, px: nat, py: nat)
    requires n < |vs| && screen.Valid()
    ensures Layered(base, vs[..n + 1], screen, px, py) ==
            if vs[n].Covers(px, py) then OwnPixel(screen, vs[n], px, py)
            else Layered(base, vs[..n], screen, px, py)
  {
  }

  // ---------------------------------------------------------------------------
  // What a click means
  // ---------------------------------------------------------------------------

  /** Column mx belongs to label i. The first label reaches four columns further left than its text. */
  predicate LabelHit(vs: seq<View>, i: int, mx: nat) {
    && 0 <= i < |vs|
    && (LabelEnd(vs[..i]) <= mx || (i == 0 && LabelEnd([]) - 4 <= mx))
    && mx < LabelEnd(vs[..i + 1])
  }

  lemma {:induction false} LabelEndGrows(vs: seq<View>, i: nat, j: nat)
    requires i <= j <= |vs|
    ensures LabelEnd(vs[..i]) <= LabelEnd(vs[..j])
    decreases j
  {
    if i < j {
      assert vs[..j][..j - 1] == vs[..j - 1];
      LabelEndGrows(vs, i, j - 1);
    }
  }

  /** At most one label is hit. */
  lemma LabelHitUnique(vs: seq<View>, i: int, j: int, mx: nat)
    requires LabelHit(vs, i, mx) && LabelHit(vs, j, mx)
    ensures i == j
  {
    if i < j {
      LabelEndGrows(vs, i + 1, j);
    } else if j < i {
      LabelEndGrows(vs, j + 1, i);
    }
  }

  /** Every column in which window i's title is drawn belongs to label i. */
  lemma TitleInsideLabel(screen: Info, font: Font, vs: seq<View>, i: nat, focused: bool, px: nat, py: nat)
    requires i < |vs| && |vs[i].title| <= vs[i].titleLen
    requires LabelText(screen, font, vs, i, focused).shape.Covers(px, py)
    ensures LabelHit(vs, i, px)
  {
    assert vs[..i + 1][..i] == vs[..i];
  }

  /** The highlight behind a focused label does not match its hit area: every column of it belongs to
      that label, except that the four leftmost ones of a later label belong to the label before. */
  lemma HighlightOverhang(vs: seq<View>, i: nat, mx: nat)
    requires i < |vs|
    requires LabelEnd(vs[..i]) - 4 <= mx < LabelEnd(vs[..i]) - 4 + vs[i].titleLen * FONT_WIDTH + 12
    ensures LabelHit(vs, i, mx) <==> i == 0 || LabelEnd(vs[..i]) <= mx
    ensures !LabelHit(vs, i, mx) ==> LabelHit(vs, i - 1, mx)
  {
    assert vs[..i + 1][..i] == vs[..i];
    if i == 0 {
      assert vs[..0] == [];
    } else {
      assert vs[..i][..i - 1] == vs[..i - 1];
    }
  }

  /** Some label is hit exactly within the strip from the first label's left reach to the last label's end. */
  lemma {:induction false} LabelStrip(vs: seq<View>, n: nat, mx: nat)
    requires n <= |vs|
    ensures (exists i :: 0 <= i < n && LabelHit(vs, i, mx)) <==> LabelEnd([]) - 4 <= mx < LabelEnd(vs[..n]) && n > 0
    decreases n
  {
    if n > 0 {
      LabelStrip(vs, n - 1, mx);
      assert vs[..n][..n - 1] == vs[..n - 1];
      if LabelHit(vs, n - 1, mx) {
        LabelEndGrows(vs, 0, n - 1);
        assert vs[..0] == [];
      } else if LabelEnd([]) - 4 <= mx < LabelEnd(vs[..n]) {
        if n == 1 {
          assert vs[..0] == [];
        }
      }
      if exists i :: 0 <= i < n - 1 && LabelHit(vs, i, mx) {
        LabelEndGrows(vs, n - 1, n);
      }
    } else {
      assert vs[..0] == [];
    }
  }

  /** Which window a click in the taskbar at column mx is for. */
  ghost function TaskbarTarget(vs: seq<View>, mx: nat): Option<nat> {
    if exists i :: LabelHit(vs, i, mx) then (var i :| LabelHit(vs, i, mx); Some(vs[i].id)) else None
  }

  lemma TaskbarTargetIs(vs: seq<View>, i: nat, mx: nat)
    requires LabelHit(vs, i, mx)
    ensures TaskbarTarget(vs, mx) == Some(vs[i].id)
  {
    forall j | LabelHit(vs, j, mx)
      ensures j == i
    {
      LabelHitUnique(vs, i, j, mx);
    }
  }

  /** Which window a click above the taskbar is for: the one whose pixel is shown there. */
  ghost function DeskTarget(vs: seq<View>, px: int, py: int): Option<nat> {
    var k := Topmost(vs, px, py);
    if k < 0 then None else Some(vs[k].id)
  }

  /** Which window a left click is for. */
  ghost function ClickTarget(desk: Desk, mx: nat, my: nat): Option<nat> {
    if my >= TaskbarTop(desk.screen) then TaskbarTarget(desk.views, mx) else DeskTarget(desk.views, mx, my)
  }

  /** In the taskbar's 28 rows a click is for the window whose label column it hits, and for none if it hits none. */
  lemma TaskbarClickIs(desk: Desk, px: nat, py: nat)
    requires py + 28 >= desk.screen.height
    ensures ClickTarget(desk, px, py) == None <==> forall i :: !LabelHit(desk.views, i, px)
    ensures forall i :: LabelHit(desk.views, i, px) ==> ClickTarget(desk, px, py) == Some(desk.views[i].id)
  {
    forall i | LabelHit(desk.views, i, px)
      ensures ClickTarget(desk, px, py) == Some(desk.views[i].id)
    {
      TaskbarTargetIs(desk.views, i, px);
    }
  }

  /** The window a click focuses is the one whose own pixel the scene shows at that point; when no
      window is focused by it, the point shows the backdrop. */
  lemma ClickIsWhatIsShown(desk: Desk, px: nat, py: nat)
    requires desk.Valid() && py < TaskbarTop(desk.screen)
    ensures match ClickTarget(desk, px, py)
            case Some(id) =>
              (exists k :: && 0 <= k < |desk.views| && desk.views[k].id == id && desk.views[k].Covers(px, py)
                           && (forall j :: k < j < |desk.views| ==> !desk.views[j].Covers(px, py))
                           && desk.Scene(px, py) == OwnPixel(desk.screen, desk.views[k], px, py))
            case None =>
              (forall k :: 0 <= k < |desk.views| ==> !desk.views[k].Covers(px, py))
              && desk.Scene(px, py) == desk.Backdrop(px, py)
  {
  }
}
