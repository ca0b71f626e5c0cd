/** Byte-level pixel access: the (y * stride + x) * bpp layout and the three
    pixel formats the kernel decodes. Every other drawing module reasons about
    the colour that ReadPixel sees, never about bytes. */
module Pixels {
  import opened Prelude

  datatype Color = Color(r: Byte, g: Byte, b: Byte)

  const BLACK := Color(0, 0, 0)
  const WHITE := Color(255, 255, 255)

  datatype PixelFormat = Rgb | Bgr | U8

  datatype Info = Info(width: nat, height: nat, stride: nat, bpp: nat, format: PixelFormat) {
    /** What a frame buffer description must satisfy for put_pixel to stay inside its own pixel. */
    predicate Valid() {
      width <= stride && (if format.U8? then 1 else 3) <= bpp
    }

    function Offset(x: nat, y: nat): nat {
      (y * stride + x) * bpp
    }

    /** The pixel is on the surface and its bytes are inside a buffer of `len` bytes. */
    predicate Has(len: nat, x: nat, y: nat) {
      x < width && y < height && Offset(x, y) + bpp <= len
    }

    function Bytes(): nat {
      height * stride * bpp
    }
  }

  /** The colour a pixel shows after `c` has been stored in it. */
  function Shade(format: PixelFormat, c: Color): Color {
    if format.U8? then
      var v: Byte := (c.r + c.g + c.b) / 3;
      Color(v, v, v)
    else c
  }

  function ReadPixel(buf: seq<Byte>, info: Info, x: nat, y: nat): Color
    requires info.Valid()
  {
    if !info.Has(|buf|, x, y) then BLACK
    else
      var o := info.Offset(x, y);
      match info.format
      case Rgb => Color(buf[o], buf[o + 1], buf[o + 2])
      case Bgr => Color(buf[o + 2], buf[o + 1], buf[o])
      case U8 => Color(buf[o], buf[o], buf[o])
  }

  /** Which bytes of the buffer a pixel's colour is, in each format. */
  lemma ReadIs(buf: seq<Byte>, info: Info, x: nat, y: nat)
    requires info.Valid() && x < info.width && y < info.height && (y * info.stride + x) * info.bpp + info.bpp <= |buf|
    ensures var o := (y * info.stride + x) * info.bpp;
            ReadPixel(buf, info, x, y) ==
            match info.format
            case Rgb => Color(buf[o], buf[o + 1], buf[o + 2])
            case Bgr => Color(buf[o + 2], buf[o + 1], buf[o])
            case U8 => Color(buf[o], buf[o], buf[o])
  {
  }

  /** Only U8 loses colour: what is shown is the grey of the average, and grey is shown as it is. */
  lemma ShadeIs(format: PixelFormat, c: Color)
    ensures !format.U8? ==> Shade(format, c) == c
    ensures format.U8? ==> var s := Shade(format, c); s.r == s.g == s.b && 3 * s.r <= c.r + c.g + c.b < 3 * s.r + 3
    ensures Shade(format, Shade(format, c)) == Shade(format, c)
  {
  }

  /** Distinct on-surface pixels occupy disjoint byte ranges. */
  lemma OffsetsDisjoint(info: Info, x: nat, y: nat, x': nat, y': nat)
    requires info.Valid() && x < info.width && x' < info.width
    requires (x, y) != (x', y')
    ensures info.Offset(x, y) + info.bpp <= info.Offset(x', y')
         || info.Offset(x', y') + info.bpp <= info.Offset(x, y)
  {
    var a, b := y * info.stride + x, y' * info.stride + x';
    if y < y' {
      LaterRow(info, x, y, x', y');
    } else if y' < y {
      LaterRow(info, x', y', x, y);
    }
    if a < b {
      ScaledGap(a, b, info.bpp);
    } else {
      ScaledGap(b, a, info.bpp);
    }
  }

  lemma LaterRow(info: Info, x: nat, y: nat, x': nat, y': nat)
    requires info.Valid() && x <= info.width && y < y'
    ensures y * info.stride + x <= y' * info.stride + x'
    ensures x < info.width ==> y * info.stride + x < y' * info.stride + x'
  {
    assert (y + 1) * info.stride <= y' * info.stride;
  }

  lemma ScaledGap(a: nat, b: nat, k: nat)
    requires a < b
    ensures a * k + k <= b * k
  {
    assert (a + 1) * k <= b * k;
  }

  /** On a full-size buffer every on-surface pixel has its bytes. */
  lemma FullBufferHasPixel(info: Info, x: nat, y: nat)
    requires info.Valid() && x < info.width && y < info.height
    ensures info.Has(info.Bytes(), x, y)
  {
    LaterRow(info, x, y, 0, info.height);
    ScaledGap(y * info.stride + x, info.height * info.stride, info.bpp);
  }

  /** No pixel of the surface changed colour. */
  ghost predicate SameColors(a: seq<Byte>, b: seq<Byte>, info: Info)
    requires info.Valid()
  {
    |a| == |b| && forall px: nat, py: nat :: ReadPixel(a, info, px, py) == ReadPixel(b, info, px, py)
  }

  /** `after` is `before` with the one pixel (x, y), if it is there at all, showing `c`. */
  ghost predicate Plotted(before: seq<Byte>, after: seq<Byte>, info: Info, x: nat, y: nat, c: Color)
    requires info.Valid()
  {
    && |after| == |before|
    && forall px: nat, py: nat ::
         ReadPixel(after, info, px, py) ==
         if px == x && py == y && info.Has(|before|, x, y) then Shade(info.format, c)
         else ReadPixel(before, info, px, py)
  }

  method PutPixel(buf: array<Byte>, info: Info, x: nat, y: nat, c: Color)
    requires info.Valid()
    modifies buf
    ensures Plotted(old(buf[..]), buf[..], info, x, y, c)
    ensures x < info.width && y < info.height && (y * info.stride + x) * info.bpp + info.bpp <= buf.Length ==>
              var o := (y * info.stride + x) * info.bpp;
              match info.format
              case Rgb => buf[o] == c.r && buf[o + 1] == c.g && buf[o + 2] == c.b && (info.bpp >= 4 ==> buf[o + 3] == 255)
              case Bgr => buf[o] == c.b && buf[o + 1] == c.g && buf[o + 2] == c.r && (info.bpp >= 4 ==> buf[o + 3] == 255)
              case U8 => buf[o] == (c.r + c.g + c.b) / 3
  {
    if x >= info.width || y >= info.height {
      return;
    }
    var offset := info.Offset(x, y);
    if offset + info.bpp > buf.Length {
      return;
    }
    match info.format {
      case Rgb =>
        buf[offset] := c.r;
        buf[offset + 1] := c.g;
        buf[offset + 2] := c.b;
        if info.bpp >= 4 {
          buf[offset + 3] := 0xFF;
        }
      case Bgr =>
        buf[offset] := c.b;
        buf[offset + 1] := c.g;
        buf[offset + 2] := c.r;
        if info.bpp >= 4 {
          buf[offset + 3] := 0xFF;
        }
      case U8 =>
        buf[offset] := (c.r + c.g + c.b) / 3;
    }
    assert forall i :: 0 <= i < buf.Length && !(offset <= i < offset + info.bpp) ==> buf[i] == old(buf[i]);
    PlottedFromBytes(old(buf[..]), buf[..], info, x, y, c);
  }

  /** Putting back what was read at a pixel changes no colour of the surface, in every format. */
  lemma PutBackChangesNothing(before: seq<Byte>, after: seq<Byte>, info: Info, x: nat, y: nat)
    requires info.Valid() && Plotted(before, after, info, x, y, ReadPixel(before, info, x, y))
    ensures SameColors(before, after, info)
  {
  }

  /** Byte-level effect of put_pixel implies its colour-level effect. */
  lemma PlottedFromBytes(before: seq<Byte>, after: seq<Byte>, info: Info, x: nat, y: nat, c: Color)
    requires info.Valid() && info.Has(|before|, x, y) && |after| == |before|
    requires var o := info.Offset(x, y);
             forall i :: 0 <= i < |before| && !(o <= i < o + info.bpp) ==> after[i] == before[i]
    requires ReadPixel(after, info, x, y) == Shade(info.format, c)
    ensures Plotted(before, after, info, x, y, c)
  {
    forall px: nat, py: nat | px != x || py != y
      ensures ReadPixel(after, info, px, py) == ReadPixel(before, info, px, py)
    {
      if info.Has(|before|, px, py) {
        OffsetsDisjoint(info, px, py, x, y);
      }
    }
  }

  /** Slice copy, as copy_from_slice between buffers and copy_within inside one. */
  method CopyBytes(dst: array<Byte>, d: nat, src: array<Byte>, s: nat, n: nat)
    requires d + n <= dst.Length && s + n <= src.Length
    modifies dst
    ensures forall i :: 0 <= i < dst.Length ==>
      dst[i] == if d <= i < d + n then old(src[s + i - d]) else old(dst[i])
  {
    forall i | 0 <= i < n {
      dst[d + i] := src[s + i];
    }
    assert forall i :: d <= i < d + n ==> dst[i] == dst[d + (i - d)];
  }

  /** `after` is `before` with `w` pixels of `src` from (sx, sy) shown from (dx, dy) rightwards. */
  ghost predicate RowShown(before: seq<Byte>, after: seq<Byte>, info: Info, dx: nat, dy: nat,
                           src: seq<Byte>, srcInfo: Info, sx: nat, sy: nat, w: nat)
    requires info.Valid() && srcInfo.Valid()
  {
    && |after| == |before|
    && forall px: nat, py: nat {:trigger ReadPixel(after, info, px, py)} ::
         ReadPixel(after, info, px, py) ==
         if py == dy && dx <= px < dx + w then ReadPixel(src, srcInfo, px - dx + sx, sy)
         else ReadPixel(before, info, px, py)
  }

  /** The bytes of `w` pixels of `src` from (sx, sy) are now at (dx, dy), and all other bytes are as before. */
  ghost predicate RowCopied(before: seq<Byte>, after: seq<Byte>, info: Info, dx: nat, dy: nat,
                            src: seq<Byte>, srcInfo: Info, sx: nat, sy: nat, w: nat)
  {
    var d, s, n := info.Offset(dx, dy), srcInfo.Offset(sx, sy), w * info.bpp;
    && info.Valid() && srcInfo.Valid() && info.bpp == srcInfo.bpp && info.format == srcInfo.format
    && dx + w <= info.width && sx + w <= srcInfo.width && dy < info.height && sy < srcInfo.height
    && |after| == |before| && d + n <= |before| && s + n <= |src|
    && (forall i :: d <= i < d + n ==> after[i] == src[s + i - d])
    && (forall i :: 0 <= i < |before| && !(d <= i < d + n) ==> after[i] == before[i])
  }

  /** Copying the bytes of one clipped pixel row copies the colours of that row and never spills
      into a neighbouring row. */
  lemma RowShownFromBytes(before: seq<Byte>, after: seq<Byte>, info: Info, dx: nat, dy: nat,
                          src: seq<Byte>, srcInfo: Info, sx: nat, sy: nat, w: nat)
    requires RowCopied(before, after, info, dx, dy, src, srcInfo, sx, sy, w)
    ensures info.Valid() && srcInfo.Valid() && RowShown(before, after, info, dx, dy, src, srcInfo, sx, sy, w)
  {
    forall px: nat, py: nat {:trigger ReadPixel(after, info, px, py)}
      ensures ReadPixel(after, info, px, py) ==
              if py == dy && dx <= px < dx + w then ReadPixel(src, srcInfo, px - dx + sx, sy)
              else ReadPixel(before, info, px, py)
    {
      hide RowCopied;
      hide ReadPixel;
      if py == dy && dx <= px < dx + w {
        InRun(before, after, info, dx, dy, src, srcInfo, sx, sy, w, px - dx);
      } else {
        OutOfRun(before, after, info, dx, dy, src, srcInfo, sx, sy, w, px, py);
      }
    }
  }

  lemma InRun(before: seq<Byte>, after: seq<Byte>, info: Info, dx: nat, dy: nat,
              src: seq<Byte>, srcInfo: Info, sx: nat, sy: nat, w: nat, k: nat)
    requires RowCopied(before, after, info, dx, dy, src, srcInfo, sx, sy, w) && k < w
    ensures ReadPixel(after, info, dx + k, dy) == ReadPixel(src, srcInfo, sx + k, sy)
  {
    hide RowCopied;
    hide Info.Offset;
    RunInside(before, after, info, dx, dy, src, srcInfo, sx, sy, w, k);
    ScaledGap(k, w, info.bpp);
    ShiftedOffset(info, dx, dy, k);
    ShiftedOffset(srcInfo, sx, sy, k);
    SameBytes(before, after, info, dx, dy, src, srcInfo, sx, sy, w, k * info.bpp);
  }

  lemma RunInside(before: seq<Byte>, after: seq<Byte>, info: Info, dx: nat, dy: nat,
                  src: seq<Byte>, srcInfo: Info, sx: nat, sy: nat, w: nat, k: nat)
    requires RowCopied(before, after, info, dx, dy, src, srcInfo, sx, sy, w) && k < w
    ensures info.bpp == srcInfo.bpp && info.format == srcInfo.format && info.Valid() && srcInfo.Valid()
    ensures dx + k < info.width && sx + k < srcInfo.width && dy < info.height && sy < srcInfo.height
  {
    hide Info.Offset;
  }

  /** `bpp` bytes inside the run. */
  lemma SameBytes(before: seq<Byte>, after: seq<Byte>, info: Info, dx: nat, dy: nat,
                  src: seq<Byte>, srcInfo: Info, sx: nat, sy: nat, w: nat, o: nat)
    requires RowCopied(before, after, info, dx, dy, src, srcInfo, sx, sy, w) && o + info.bpp <= w * info.bpp
    ensures var d, s := info.Offset(dx, dy), srcInfo.Offset(sx, sy);
            && d + o + info.bpp <= |after| && s + o + info.bpp <= |src|
            && after[d + o] == src[s + o]
            && (!info.format.U8? ==> after[d + o + 1] == src[s + o + 1] && after[d + o + 2] == src[s + o + 2])
  {
    hide Info.Offset;
  }

  lemma OutOfRun(before: seq<Byte>, after: seq<Byte>, info: Info, dx: nat, dy: nat,
                 src: seq<Byte>, srcInfo: Info, sx: nat, sy: nat, w: nat, px: nat, py: nat)
    requires RowCopied(before, after, info, dx, dy, src, srcInfo, sx, sy, w) && !(py == dy && dx <= px < dx + w)
    ensures ReadPixel(after, info, px, py) == ReadPixel(before, info, px, py)
  {
    if px < info.width {
      RowApart(info, dx, dy, w, px, py);
      hide Info.Offset;
    }
  }

  lemma ShiftedOffset(info: Info, x: nat, y: nat, k: nat)
    ensures info.Offset(x + k, y) == info.Offset(x, y) + k * info.bpp
  {
  }

  /** A pixel outside a run of `w` pixels has its bytes outside the run's bytes. */
  lemma RowApart(info: Info, dx: nat, dy: nat, w: nat, px: nat, py: nat)
    requires info.Valid() && dx + w <= info.width && px < info.width
    requires !(py == dy && dx <= px < dx + w)
    ensures info.Offset(px, py) + info.bpp <= info.Offset(dx, dy)
         || info.Offset(dx, dy) + w * info.bpp <= info.Offset(px, py)
  {
    var p, d := py * info.stride + px, dy * info.stride + dx;
    assert info.Offset(px, py) == p * info.bpp && info.Offset(dx, dy) == d * info.bpp;
    if py < dy {
      LaterRow(info, px, py, dx, dy);
    } else if dy < py {
      LaterRow(info, dx + w, dy, px, py);
    }
    hide Info.Offset;
    if p < d {
      ScaledGap(p, d, info.bpp);
    } else {
      ScaledRun(d, w, p, info.bpp);
    }
  }

  lemma ScaledRun(d: nat, w: nat, p: nat, k: nat)
    requires d + w <= p
    ensures d * k + w * k <= p * k
  {
  }

  /** One guarded row copy, as in window blitting and console scrolling: nothing happens unless
      both byte ranges are inside their buffers. */
  method CopyRow(dst: array<Byte>, info: Info, dx: nat, dy: nat,
                 src: array<Byte>, srcInfo: Info, sx: nat, sy: nat, w: nat)
    requires info.Valid() && srcInfo.Valid()
    requires info.bpp == srcInfo.bpp && info.format == srcInfo.format
    requires w > 0 ==> && dx + w <= info.width && sx + w <= srcInfo.width
                       && dy < info.height && sy < srcInfo.height
    modifies dst
    ensures && info.Offset(dx, dy) + w * info.bpp <= dst.Length
            && srcInfo.Offset(sx, sy) + w * info.bpp <= src.Length
            ==> RowShown(old(dst[..]), dst[..], info, dx, dy, old(src[..]), srcInfo, sx, sy, w)
    ensures !(&& info.Offset(dx, dy) + w * info.bpp <= dst.Length
              && srcInfo.Offset(sx, sy) + w * info.bpp <= src.Length)
            ==> dst[..] == old(dst[..])
  {
    var d, s, n := info.Offset(dx, dy), srcInfo.Offset(sx, sy), w * info.bpp;
    if s + n <= src.Length && d + n <= dst.Length {
      ghost var was, from := dst[..], src[..];
      CopyBytes(dst, d, src, s, n);
      ghost var now := dst[..];
      assert w > 0 ==> RowCopied(was, now, info, dx, dy, from, srcInfo, sx, sy, w);
      hide *;
      if w > 0 {
        RowShownFromBytes(was, now, info, dx, dy, from, srcInfo, sx, sy, w);
      } else {
        NothingCopied(was, now, info, dx, dy, from, srcInfo, sx, sy);
      }
    }
  }

  lemma NothingCopied(before: seq<Byte>, after: seq<Byte>, info: Info, dx: nat, dy: nat,
                      src: seq<Byte>, srcInfo: Info, sx: nat, sy: nat)
    requires info.Valid() && srcInfo.Valid() && after == before
    ensures RowShown(before, after, info, dx, dy, src, srcInfo, sx, sy, 0)
  {
  }
}
