/** Rectangles, outlines and text on a pixel buffer. Each drawing loop is
    specified by the shape of the pixels it colours; nothing else changes. */
module Drawing {
  import opened Prelude
  import opened Pixels

  const FONT_SCALE_X := 1
  const FONT_SCALE_Y := 2
  const FONT_WIDTH := 8
  const FONT_HEIGHT := 16

  datatype Rect = Rect(x: nat, y: nat, width: nat, height: nat) {
    predicate Contains(px: int, py: int) {
      x <= px < x + width && y <= py < y + height
    }
  }

  type Glyph = g: seq<bv8> | |g| == 8 witness [0, 0, 0, 0, 0, 0, 0, 0]

  /** The glyph table: a lookup that falls back to the glyph of '?'. */
  type Font = f: map<char, Glyph> | '?' in f witness map['?' := NO_DOTS]

  const NO_DOTS: Glyph := [0, 0, 0, 0, 0, 0, 0, 0]

  function GlyphOf(font: Font, c: char): Glyph {
    if c in font then font[c] else font['?']
  }

  predicate BitOn(glyph: Glyph, gx: nat, gy: nat)
    requires gx < 8 && gy < 8
  {
    glyph[gy] & (1 << gx) != 0
  }

  /** Pixel (dx, dy) of the 8 x 16 cell of character c is lit. */
  predicate Lit(font: Font, c: char, dx: int, dy: int) {
    0 <= dx < FONT_WIDTH && 0 <= dy < FONT_HEIGHT && BitOn(GlyphOf(font, c), dx / FONT_SCALE_X, dy / FONT_SCALE_Y)
  }

  /** Bit k of a glyph row, counted from the lowest, is column k from the left. */
  lemma OneBit(glyph: Glyph, gx: nat, gy: nat, k: nat)
    requires gx < 8 && gy < 8 && k < 8 && glyph[gy] == [1, 2, 4, 8, 16, 32, 64, 128][k]
    ensures BitOn(glyph, gx, gy) <==> gx == k
  {
  }

  /** And rows combine bit by bit. */
  lemma BitsCombine(a: Glyph, b: Glyph, both: Glyph, gx: nat, gy: nat)
    requires gx < 8 && gy < 8 && both[gy] == a[gy] | b[gy]
    ensures BitOn(both, gx, gy) <==> BitOn(a, gx, gy) || BitOn(b, gx, gy)
  {
  }

  /** A cell is eight columns of one pixel and eight rows of two, the glyph's first row on top. */
  lemma LitIs(font: Font, c: char, gx: nat, gy: nat, half: nat, dx: int, dy: int)
    requires gx < 8 && gy < 8 && half < 2
    ensures Lit(font, c, gx, 2 * gy + half) <==> BitOn(GlyphOf(font, c), gx, gy)
    ensures Lit(font, c, dx, dy) ==> 0 <= dx < 8 && 0 <= dy < 16
    ensures GlyphOf(font, c) == font[if c in font then c else '?']
  {
  }

  /** A rectangle of one pixel is that pixel, and rectangles side by side share none. */
  lemma RectIs(r: Rect, more: nat, px: int, py: int)
    ensures Rect(r.x, r.y, 1, 1).Contains(px, py) <==> px == r.x && py == r.y
    ensures r.(width := r.width + more).Contains(px, py) <==>
            r.Contains(px, py) || r.(x := r.x + r.width, width := more).Contains(px, py)
    ensures r.(height := r.height + more).Contains(px, py) <==>
            r.Contains(px, py) || r.(y := r.y + r.height, height := more).Contains(px, py)
    ensures !(r.Contains(px, py) && r.(x := r.x + r.width, width := more).Contains(px, py))
    ensures !(r.Contains(px, py) && r.(y := r.y + r.height, height := more).Contains(px, py))
  {
  }

  datatype Shape =
    | Box(rect: Rect)
    | Outline(left: nat, top: nat, right: nat, bottom: nat)
    | Text(font: Font, text: string, x: nat, y: nat)
  {
    predicate Covers(px: int, py: int) {
      match this
      case Box(r) => r.Contains(px, py)
      case Outline(l, t, r, b) =>
        || (l <= px <= r && (py == t || py == b))
        || (t <= py <= b && (px == l || px == r))
      case Text(f, s, x, y) =>
        x <= px && (px - x) / FONT_WIDTH < |s| && Lit(f, s[(px - x) / FONT_WIDTH], (px - x) % FONT_WIDTH, py - y)
    }
  }

  /** `after` is `before` with exactly the existing pixels of `shape` showing `c`. */
  ghost predicate Painted(before: seq<Byte>, after: seq<Byte>, info: Info, shape: Shape, c: Color)
    requires info.Valid()
  {
    && |after| == |before|
    && forall px: nat, py: nat ::
         ReadPixel(after, info, px, py) ==
         if shape.Covers(px, py) && info.Has(|before|, px, py) then Shade(info.format, c)
         else ReadPixel(before, info, px, py)
  }

  method FillRect(buf: array<Byte>, info: Info, r: Rect, c: Color)
    requires info.Valid()
    modifies buf
    ensures Painted(old(buf[..]), buf[..], info, Box(r), c)
  {
    var xEnd := Min(r.x + r.width, info.width);
    var yEnd := Min(r.y + r.height, info.height);
    var py := r.y;
    while py < yEnd
      invariant r.y <= py
      invariant py <= yEnd || py == r.y
      invariant forall qx: nat, qy: nat ::
        ReadPixel(buf[..], info, qx, qy) ==
        if r.Contains(qx, qy) && qy < py && info.Has(buf.Length, qx, qy) then Shade(info.format, c)
        else old(ReadPixel(buf[..], info, qx, qy))
    {
      var px := r.x;
      while px < xEnd
        invariant r.x <= px
        invariant px <= xEnd || px == r.x
        invariant forall qx: nat, qy: nat ::
          ReadPixel(buf[..], info, qx, qy) ==
          if r.Contains(qx, qy) && (qy < py || (qy == py && qx < px)) && info.Has(buf.Length, qx, qy)
          then Shade(info.format, c)
          else old(ReadPixel(buf[..], info, qx, qy))
      {
        PutPixel(buf, info, px, py, c);
        px := px + 1;
      }
      py := py + 1;
    }
  }

  /** The last column and row the outline of `r` uses on a width x height surface. */
  function OutlineOf(info: Info, r: Rect): Shape {
    Outline(r.x, r.y, Monus(Min(r.x + r.width, info.width), 1), Monus(Min(r.y + r.height, info.height), 1))
  }

  /** On a rectangle inside the surface the outline is what is left of it without its inside. */
  lemma OutlineIsBorder(info: Info, r: Rect, px: int, py: int)
    requires r.width > 0 && r.height > 0 && r.x + r.width <= info.width && r.y + r.height <= info.height
    ensures OutlineOf(info, r).Covers(px, py) <==>
            r.Contains(px, py) && !Rect(r.x + 1, r.y + 1, Monus(r.width, 2), Monus(r.height, 2)).Contains(px, py)
  {
  }

  method DrawRectOutline(buf: array<Byte>, info: Info, r: Rect, c: Color)
    requires info.Valid()
    modifies buf
    ensures r.width == 0 || r.height == 0 ==> buf[..] == old(buf[..])
    ensures r.width > 0 && r.height > 0 ==> Painted(old(buf[..]), buf[..], info, OutlineOf(info, r), c)
  {
    if r.width == 0 || r.height == 0 {
      return;
    }
    var xEnd := Min(r.x + r.width, info.width);
    var yEnd := Min(r.y + r.height, info.height);
    var xLast := Monus(xEnd, 1);
    var yLast := Monus(yEnd, 1);
    var x := r.x;
    while x <= xLast
      invariant r.x <= x
      invariant x <= xLast + 1 || x == r.x
      invariant forall qx: nat, qy: nat ::
        ReadPixel(buf[..], info, qx, qy) ==
        if r.x <= qx < x && (qy == r.y || qy == yLast) && info.Has(buf.Length, qx, qy) then Shade(info.format, c)
        else old(ReadPixel(buf[..], info, qx, qy))
    {
      PutPixel(buf, info, x, r.y, c);
      PutPixel(buf, info, x, yLast, c);
      x := x + 1;
    }
    var y := r.y;
    while y <= yLast
      invariant r.y <= y
      invariant y <= yLast + 1 || y == r.y
      invariant forall qx: nat, qy: nat ::
        ReadPixel(buf[..], info, qx, qy) ==
        if (|| (r.x <= qx <= xLast && (qy == r.y || qy == yLast))
            || (r.y <= qy < y && (qx == r.x || qx == xLast)))
           && info.Has(buf.Length, qx, qy)
        then Shade(info.format, c)
        else old(ReadPixel(buf[..], info, qx, qy))
    {
      PutPixel(buf, info, r.x, y, c);
      PutPixel(buf, info, xLast, y, c);
      y := y + 1;
    }
  }

  /** One glyph bit is FONT_SCALE_X by FONT_SCALE_Y pixels. */
  method PutScaled(buf: array<Byte>, info: Info, x: nat, y: nat, c: Color)
    requires info.Valid()
    modifies buf
    ensures Painted(old(buf[..]), buf[..], info, Box(Rect(x, y, FONT_SCALE_X, FONT_SCALE_Y)), c)
  {
    for sy := 0 to FONT_SCALE_Y
      invariant Painted(old(buf[..]), buf[..], info, Box(Rect(x, y, FONT_SCALE_X, sy)), c)
    {
      for sx := 0 to FONT_SCALE_X
        invariant forall qx: nat, qy: nat ::
          ReadPixel(buf[..], info, qx, qy) ==
          if (Rect(x, y, FONT_SCALE_X, sy).Contains(qx, qy) || (qy == y + sy && x <= qx < x + sx))
             && info.Has(buf.Length, qx, qy)
          then Shade(info.format, c)
          else old(ReadPixel(buf[..], info, qx, qy))
      {
        PutPixel(buf, info, x + sx, y + sy, c);
      }
    }
  }

  /** The lit pixels among the first `n` glyph bits, scanning rows from the top. */
  ghost predicate LitAmong(font: Font, ch: char, n: int, dx: int, dy: int) {
    Lit(font, ch, dx, dy) && 8 * (dy / FONT_SCALE_Y) + dx / FONT_SCALE_X < n
  }

  lemma LitAmongStep(font: Font, ch: char, gx: nat, gy: nat, dx: int, dy: int)
    requires gx < 8 && gy < 8
    ensures LitAmong(font, ch, 8 * gy + gx + 1, dx, dy) <==>
            (|| LitAmong(font, ch, 8 * gy + gx, dx, dy)
             || (&& BitOn(GlyphOf(font, ch), gx, gy)
                 && Rect(gx * FONT_SCALE_X, gy * FONT_SCALE_Y, FONT_SCALE_X, FONT_SCALE_Y).Contains(dx, dy)))
  {
  }

  ghost predicate GlyphPainted(before: seq<Byte>, after: seq<Byte>, info: Info, font: Font, x0: nat, y0: nat,
                               ch: char, n: int, c: Color)
    requires info.Valid()
  {
    && |after| == |before|
    && forall px: nat, py: nat ::
         ReadPixel(after, info, px, py) ==
         if LitAmong(font, ch, n, px - x0, py - y0) && info.Has(|before|, px, py) then Shade(info.format, c)
         else ReadPixel(before, info, px, py)
  }

  lemma GlyphPaintedStep(before: seq<Byte>, mid: seq<Byte>, after: seq<Byte>, info: Info, font: Font,
                         x0: nat, y0: nat, ch: char, gx: nat, gy: nat, c: Color)
    requires info.Valid() && gx < 8 && gy < 8
    requires GlyphPainted(before, mid, info, font, x0, y0, ch, 8 * gy + gx, c)
    requires if BitOn(GlyphOf(font, ch), gx, gy)
             then Painted(mid, after, info,
                          Box(Rect(x0 + gx * FONT_SCALE_X, y0 + gy * FONT_SCALE_Y, FONT_SCALE_X, FONT_SCALE_Y)), c)
             else after == mid
    ensures GlyphPainted(before, after, info, font, x0, y0, ch, 8 * gy + gx + 1, c)
  {
    hide Lit;
    hide LitAmong;
    hide BitOn;
    hide ReadPixel;
    forall px: nat, py: nat
      ensures ReadPixel(after, info, px, py) ==
              if LitAmong(font, ch, 8 * gy + gx + 1, px - x0, py - y0) && info.Has(|before|, px, py)
              then Shade(info.format, c)
              else ReadPixel(before, info, px, py)
    {
      LitAmongStep(font, ch, gx, gy, px - x0, py - y0);
    }
  }

  method DrawCharAt(buf: array<Byte>, info: Info, font: Font, x0: nat, y0: nat, ch: char, c: Color)
    requires info.Valid()
    modifies buf
    ensures Painted(old(buf[..]), buf[..], info, Text(font, [ch], x0, y0), c)
  {
    var glyph := GlyphOf(font, ch);
    for gy := 0 to 8
      invariant GlyphPainted(old(buf[..]), buf[..], info, font, x0, y0, ch, 8 * gy, c)
    {
      for gx := 0 to 8
        invariant GlyphPainted(old(buf[..]), buf[..], info, font, x0, y0, ch, 8 * gy + gx, c)
      {
        ghost var mid := buf[..];
        if BitOn(glyph, gx, gy) {
          PutScaled(buf, info, x0 + gx * FONT_SCALE_X, y0 + gy * FONT_SCALE_Y, c);
        }
        GlyphPaintedStep(old(buf[..]), mid, buf[..], info, font, x0, y0, ch, gx, gy, c);
      }
    }
  }

  lemma TextStep(font: Font, text: string, i: nat, x: nat, y: nat, px: int, py: int)
    requires i < |text|
    ensures Text(font, text[..i + 1], x, y).Covers(px, py) <==>
            (|| Text(font, text[..i], x, y).Covers(px, py)
             || Text(font, [text[i]], x + i * FONT_WIDTH, y).Covers(px, py))
  {
  }

  /** Character k of a text stands eight pixels right of the one before. */
  lemma TextIs(font: Font, text: string, x: nat, y: nat, k: nat, dx: nat, py: int)
    requires k < |text| && dx < 8
    ensures Text(font, text, x, y).Covers(x + 8 * k + dx, py) <==> Lit(font, text[k], dx, py - y)
  {
  }

  method DrawText(buf: array<Byte>, info: Info, font: Font, x: nat, y: nat, text: string, c: Color)
    requires info.Valid()
    modifies buf
    ensures Painted(old(buf[..]), buf[..], info, Text(font, text, x, y), c)
  {
    var cx := x;
    for i := 0 to |text|
      invariant cx == x + i * FONT_WIDTH
      invariant Painted(old(buf[..]), buf[..], info, Text(font, text[..i], x, y), c)
    {
      ghost var mid := buf[..];
      DrawCharAt(buf, info, font, cx, y, text[i], c);
      forall px: nat, py: nat
        ensures ReadPixel(buf[..], info, px, py) ==
                if Text(font, text[..i + 1], x, y).Covers(px, py) && info.Has(buf.Length, px, py)
                then Shade(info.format, c)
                else old(ReadPixel(buf[..], info, px, py))
      {
        hide *;
        TextStep(font, text, i, x, y, px, py);
      }
      cx := cx + FONT_WIDTH;
    }
    assert text[..|text|] == text;
  }
}
