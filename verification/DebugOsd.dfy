/** The debug overlay of src/debug_osd.c: drawing on a canvas, and a dirty rectangle that says what to clear. */
module DebugOsd {
  import opened Bytes
  import opened Bresenham
  import opened OsdDrawing
  import Arith

  // ---- pixels in a row-major array ----

  lemma IndexFits(x: int, y: int, width: nat, height: nat, stride: nat)
    requires 0 <= x < width <= stride && 0 <= y < height
    ensures 0 <= y * stride && y * stride + x < y * stride + stride <= height * stride
  {
    Arith.MulNonneg(y, stride);
    Arith.MulNonneg(height - 1 - y, stride);
    assert (height - 1 - y) * stride == height * stride - stride - y * stride;
  }

  lemma IndexDistinct(x: int, y: int, x': int, y': int, stride: nat)
    requires 0 <= x < stride && 0 <= x' < stride
    ensures y * stride + x == y' * stride + x' <==> x == x' && y == y'
  {
    if y * stride + x == y' * stride + x' {
      assert (y - y') * stride == y * stride - y' * stride;
      Arith.OnlyZero(y - y', stride, x' - x);
    }
  }

  /** Fills `count` pixels from `start` on: singly up to a 16-byte boundary, then eight at a time, then the rest. */
  method FillRow(pixels: array<Uint16>, virtAddr: nat, start: nat, count: nat, color: Uint16)
    requires start + count <= pixels.Length
    modifies pixels
    ensures forall k :: 0 <= k < pixels.Length ==>
      pixels[k] == if start <= k < start + count then color else old(pixels[k])
  {
    var i := 0;
    while i < count && (virtAddr + 2 * (start + i)) % 16 != 0
      invariant 0 <= i <= count
      invariant forall k :: 0 <= k < pixels.Length ==>
        pixels[k] == if start <= k < start + i then color else old(pixels[k])
    {
      pixels[start + i] := color;
      i := i + 1;
    }
    var chunks := (count - i) / 8;
    var j := 0;
    while j < chunks
      invariant 0 <= j <= chunks
      invariant forall k :: 0 <= k < pixels.Length ==>
        pixels[k] == if start <= k < start + i + 8 * j then color else old(pixels[k])
    {
      forall lane | 0 <= lane < 8 {
        pixels[start + i + 8 * j + lane] := color;
      }
      j := j + 1;
    }
    i := i + chunks * 8;
    while i < count
      invariant 0 <= i <= count
      invariant forall k :: 0 <= k < pixels.Length ==>
        pixels[k] == if start <= k < start + i then color else old(pixels[k])
    {
      pixels[start + i] := color;
      i := i + 1;
    }
  }

  /** What the region driver says about the canvas memory. */
  datatype CanvasInfo = CanvasInfo(pixels: array<Uint16>, stridePx: nat, virtAddr: nat)

  class DebugOsdState {
    const width: nat
    const height: nat
    const font: seq<seq<Byte>>

    function View(): Screen { Screen(width, height, font) }

    var canvas: CanvasInfo
    var dirty: DirtyRect

    ghost predicate Fits(c: CanvasInfo)
    {
      1 <= width <= 0xFFFF && 1 <= height <= 0xFFFF && width <= c.stridePx && height * c.stridePx <= c.pixels.Length
    }

    ghost predicate Mapped()
      reads this`canvas
    {
      Fits(canvas) && IsFont(font)
    }

    /** Nor does the dirty rectangle reach past the canvas. */
    ghost predicate Valid()
      reads this
    {
      Mapped() && dirty.x1 < width && dirty.y1 < height
    }

    predicate Inside(x: int, y: int) { View().Inside(x, y) }

    ghost function PixelOf(c: CanvasInfo, x: int, y: int): Uint16
      requires Fits(c) && Inside(x, y)
      reads c.pixels
    {
      IndexFits(x, y, width, height, c.stridePx);
      c.pixels[y * c.stridePx + x]
    }

    ghost function At(x: int, y: int): Uint16
      requires Mapped() && Inside(x, y)
      reads this`canvas, canvas.pixels
    {
      PixelOf(canvas, x, y)
    }

    /** Every pixel that is not transparent lies in the dirty rectangle. */
    ghost predicate Covered()
      requires Mapped()
      reads this, canvas.pixels
    {
      forall i, j :: Inside(i, j) && At(i, j) != 0 ==> InDirty(dirty, i, j)
    }

    ghost predicate Blank()
      requires Mapped()
      reads this`canvas, canvas.pixels
    {
      forall i, j :: Inside(i, j) ==> At(i, j) == 0
    }

    /** A state on a canvas that is cleared first. */
    constructor (width: nat, height: nat, font: seq<seq<Byte>>, info: CanvasInfo)
      requires 1 <= width <= 0xFFFF && 1 <= height <= 0xFFFF && IsFont(font)
      requires width <= info.stridePx && height * info.stridePx <= info.pixels.Length
      modifies info.pixels
      ensures Valid() && canvas == info && Blank() && Covered()
      ensures this.width == width && this.height == height && this.font == font && dirty == View().NoDirt()
    {
      this.width, this.height, this.font, canvas := width, height, font, info;
      dirty := DirtyRect(width, height, 0, 0);
      new;
      var y := 0;
      while y < height
        invariant 0 <= y <= height && canvas == info && dirty == DirtyRect(width, height, 0, 0)
        invariant forall i, j :: Inside(i, j) && j < y ==> At(i, j) == 0
        modifies info.pixels
      {
        FillSpan(0, y, width, 0);
        y := y + 1;
      }
    }

    method PutPixel(x: int, y: int, color: Uint16)
      requires Mapped()
      modifies canvas.pixels
      ensures forall i, j :: Inside(i, j) ==> At(i, j) == if i == x && j == y then color else old(At(i, j))
    {
      if x < 0 || x >= width || y < 0 || y >= height {
        return;
      }
      IndexFits(x, y, width, height, canvas.stridePx);
      forall i, j | Inside(i, j)
        ensures y * canvas.stridePx + x == j * canvas.stridePx + i <==> x == i && y == j
      {
        IndexDistinct(x, y, i, j, canvas.stridePx);
      }
      canvas.pixels[y * canvas.stridePx + x] := color;
    }

    /** `count` pixels of one row of the canvas. */
    method FillSpan(x: nat, y: nat, count: nat, color: Uint16)
      requires Mapped() && x + count <= width && y < height
      modifies canvas.pixels
      ensures forall i, j :: Inside(i, j) ==> At(i, j) == if j == y && x <= i < x + count then color else old(At(i, j))
    {
      IndexFits(0, y, width, height, canvas.stridePx);
      var start := y * canvas.stridePx + x;
      FillRow(canvas.pixels, canvas.virtAddr, start, count, color);
      forall i, j | Inside(i, j)
        ensures At(i, j) == if j == y && x <= i < x + count then color else old(At(i, j))
      {
        IndexFits(i, j, width, height, canvas.stridePx);
        RowOnly(x, y, count, i, j, canvas.stridePx);
      }
    }

    method DirtyExpand(x: int, y: int)
      requires Mapped()
      modifies this`dirty
      ensures dirty == Expanded(old(dirty), x, y, width, height)
    {
      var cx, cy := x, y;
      if cx < 0 { cx := 0; }
      if cy < 0 { cy := 0; }
      if cx >= width { cx := width - 1; }
      if cy >= height { cy := height - 1; }
      if cx < dirty.x0 { dirty := dirty.(x0 := cx); }
      if cy < dirty.y0 { dirty := dirty.(y0 := cy); }
      if cx > dirty.x1 { dirty := dirty.(x1 := cx); }
      if cy > dirty.y1 { dirty := dirty.(y1 := cy); }
    }

    method FillBox(x0: int, y0: int, x1: int, y1: int, color: Uint16)
      requires Mapped() && 0 <= x0 <= x1 < width && 0 <= y0 <= y1 < height
      modifies canvas.pixels
      ensures forall i, j :: Inside(i, j) ==>
        At(i, j) == if x0 <= i <= x1 && y0 <= j <= y1 then color else old(At(i, j))
    {
      var row, span := y0, x1 - x0 + 1;
      while row <= y1
        invariant y0 <= row <= y1 + 1
        invariant forall i, j :: Inside(i, j) ==>
          At(i, j) == if x0 <= i <= x1 && y0 <= j < row then color else old(At(i, j))
      {
        FillSpan(x0, row, span, color);
        row := row + 1;
      }
    }

    method OutlineBox(x0: int, y0: int, x1: int, y1: int, color: Uint16)
      requires Mapped() && 0 <= x0 <= x1 < width && 0 <= y0 <= y1 < height
      modifies canvas.pixels
      ensures forall i, j :: Inside(i, j) ==>
        At(i, j) == if x0 <= i <= x1 && y0 <= j <= y1 && (j == y0 || j == y1 || i == x0 || i == x1) then color
                    else old(At(i, j))
    {
      var row, span := y0, x1 - x0 + 1;
      FillSpan(x0, y0, span, color);
      FillSpan(x0, y1, span, color);
      while row <= y1
        invariant y0 <= row <= y1 + 1
        invariant forall i, j :: Inside(i, j) ==>
          At(i, j) == if x0 <= i <= x1 && (j == y0 || j == y1 || (y0 <= j < row && (i == x0 || i == x1))) then color
                      else old(At(i, j))
      {
        PutPixel(x0, row, color);
        PutPixel(x1, row, color);
        row := row + 1;
      }
    }

    method Rect(x: Uint16, y: Uint16, w: Uint16, h: Uint16, color: Uint16, filled: bool)
      requires Valid()
      modifies this`dirty, canvas.pixels
      ensures forall i, j :: Inside(i, j) ==>
        At(i, j) == if InRect(x, y, w, h, filled, width, height, i, j) then color else old(At(i, j))
      ensures dirty == View().RectDirt(old(dirty), x, y, w, h)
      ensures Valid() && (old(Covered()) ==> Covered())
    {
      hide PixelOf, Expanded;
      if w == 0 || h == 0 {
        return;
      }
      var x0, y0 := x, y;
      var x1, y1: int := x as int + w as int - 1, y as int + h as int - 1;
      if x0 >= width || y0 >= height {
        return;
      }
      if x1 >= width { x1 := width - 1; }
      if y1 >= height { y1 := height - 1; }
      DirtyExpand(x0, y0);
      DirtyExpand(x1, y1);
      if filled {
        FillBox(x0, y0, x1, y1, color);
      } else {
        OutlineBox(x0, y0, x1, y1, color);
      }
      ExpandClamped(Expanded(old(dirty), x0, y0, width, height), x1, y1,
                    x as int + w as int - 1, y as int + h as int - 1, width, height);
      BoxDirty(old(dirty), x0, y0, x1, y1, width, height);
      forall i, j | old(Covered()) && Inside(i, j) && At(i, j) != 0 ensures InDirty(dirty, i, j) {
        if !InBox(x0, y0, x1, y1, i, j) {
          assert old(At(i, j)) != 0;
        }
      }
    }

    method DrawCross(x: int, y: int, color: Uint16, size: int)
      requires Mapped()
      modifies canvas.pixels
      ensures forall i, j :: Inside(i, j) ==> At(i, j) == if InCross(x, y, size, i, j) then color else old(At(i, j))
    {
      var d := -size;
      while d <= size
        invariant -size <= d && (d <= size + 1 || d == -size)
        invariant forall i, j :: Inside(i, j) ==>
          At(i, j) == if (j == y && x - size <= i < x + d) || (i == x && y - size <= j < y + d) then color
                      else old(At(i, j))
        decreases size - d
      {
        PutPixel(x + d, y, color);
        PutPixel(x, y + d, color);
        d := d + 1;
      }
    }

    method Point(x: Uint16, y: Uint16, color: Uint16, size: int)
      requires Valid()
      modifies this`dirty, canvas.pixels
      ensures forall i, j :: Inside(i, j) ==>
        At(i, j) == if InCross(x, y, size, i, j) then color else old(At(i, j))
      ensures dirty == View().BoxDirt(old(dirty), x as int - size, y as int - size, x as int + size, y as int + size)
      ensures Valid() && (old(Covered()) ==> Covered())
    {
      hide PixelOf, Expanded;
      DirtyExpand(x as int - size, y as int - size);
      DirtyExpand(x as int + size, y as int + size);
      DrawCross(x, y, color, size);
      BoxDirty(old(dirty), x as int - size, y as int - size, x as int + size, y as int + size, width, height);
      forall i, j | old(Covered()) && Inside(i, j) && At(i, j) != 0 ensures InDirty(dirty, i, j) {
        if !InCross(x, y, size, i, j) {
          assert old(At(i, j)) != 0;
        }
      }
    }

    method DrawLine(x0: int, y0: int, x1: int, y1: int, color: Uint16)
      requires Mapped()
      modifies canvas.pixels
      ensures forall i, j :: Inside(i, j) ==>
        At(i, j) == if Bresenham.Line(x0, y0, x1, y1).On(i, j) then color else old(At(i, j))
    {
      hide Err, Bresenham.Line.CellX, Bresenham.Line.CellY, Bresenham.Line.Before, Bresenham.Line.On;
      ghost var l := Bresenham.Line(x0, y0, x1, y1);
      var dx: int := if x1 < x0 then x0 - x1 else x1 - x0;
      var dy: int := if y1 < y0 then y1 - y0 else y0 - y1;
      var sx: int := if x0 < x1 then 1 else -1;
      var sy: int := if y0 < y1 then 1 else -1;
      var err := dx + dy;
      var cx, cy := x0, y0;
      ghost var k: nat := 0;
      Ends(l, 0);
      StartError(l);
      l.BeforeFirst();
      while true
        invariant k <= l.Length() && cx == l.CellX(k) && cy == l.CellY(k)
        invariant k < l.Length() ==> err == Err(l, l.Columns(k), l.Rows(k))
        invariant forall i, j :: Inside(i, j) ==> At(i, j) == if l.Before(k, i, j) then color else old(At(i, j))
        decreases l.Length() - k
      {
        PutPixel(cx, cy, color);
        Ends(l, k);
        l.BeforeNext(k);
        if cx == x1 && cy == y1 {
          break;
        }
        StepCell(l, k);
        var e2 := 2 * err;
        if e2 >= dy {
          err := err + dy;
          cx := cx + sx;
        }
        if e2 <= dx {
          err := err + dx;
          cy := cy + sy;
        }
        k := k + 1;
      }
    }

    /** Draws exactly the cells of the line that lie on the canvas. */
    method Line(x0: Uint16, y0: Uint16, x1: Uint16, y1: Uint16, color: Uint16)
      requires Valid()
      modifies this`dirty, canvas.pixels
      ensures forall i, j :: Inside(i, j) ==>
        At(i, j) == if Bresenham.Line(x0, y0, x1, y1).On(i, j) then color else old(At(i, j))
      ensures dirty == View().BoxDirt(old(dirty), x0, y0, x1, y1)
      ensures Valid() && (old(Covered()) ==> Covered())
    {
      hide Bresenham.Line.On;
      ghost var l := Bresenham.Line(x0, y0, x1, y1);
      DirtyExpand(x0, y0);
      DirtyExpand(x1, y1);
      DrawLine(x0, y0, x1, y1, color);
      OnInBox(l);
      BoxDirty(old(dirty), x0, y0, x1, y1, width, height);
      forall i, j | old(Covered()) && Inside(i, j) && At(i, j) != 0 ensures InDirty(dirty, i, j) {
        if !l.On(i, j) {
          assert old(At(i, j)) != 0;
        }
      }
    }

    /** One bit of a glyph: a block of `FONT_SCALE` by `FONT_SCALE` pixels, as far as it lies on the canvas. */
    method DrawBlock(cx: int, cy: int, color: Uint16)
      requires Mapped()
      modifies canvas.pixels
      ensures forall i, j :: Inside(i, j) ==>
        At(i, j) == if cx <= i < cx + FONT_SCALE && cy <= j < cy + FONT_SCALE then color else old(At(i, j))
    {
      var sy := 0;
      while sy < FONT_SCALE
        invariant 0 <= sy <= FONT_SCALE
        invariant forall i, j :: Inside(i, j) ==>
          At(i, j) == if cx <= i < cx + FONT_SCALE && cy <= j < cy + sy then color else old(At(i, j))
      {
        var rowY := cy + sy;
        sy := sy + 1;
        if rowY < 0 || rowY >= height {
          continue;
        }
        if cx >= 0 && cx + FONT_SCALE <= width {
          FillSpan(cx, rowY, FONT_SCALE, color);
        } else {
          var sx := 0;
          while sx < FONT_SCALE
            invariant 0 <= sx <= FONT_SCALE
            invariant forall i, j :: Inside(i, j) ==>
              At(i, j)
              == if (cx <= i < cx + FONT_SCALE && cy <= j < rowY) || (cx <= i < cx + sx && j == rowY) then color
                 else old(At(i, j))
          {
            PutPixel(cx + sx, rowY, color);
            sx := sx + 1;
          }
        }
      }
    }

    method DrawGlyph(px: int, py: int, glyph: seq<Byte>, color: Uint16)
      requires Mapped() && |glyph| == 8
      modifies canvas.pixels
      ensures forall i, j :: Inside(i, j) ==> At(i, j) == if InGlyph(glyph, px, py, i, j) then color else old(At(i, j))
    {
      var gy := 0;
      while gy < 8
        invariant 0 <= gy <= 8
        invariant forall i, j :: Inside(i, j) ==>
          At(i, j) == if InGlyph(glyph, px, py, i, j) && j < py + gy * FONT_SCALE then color else old(At(i, j))
      {
        DrawGlyphRow(px, py, glyph, gy, color);
        gy := gy + 1;
      }
    }

    method DrawGlyphRow(px: int, py: int, glyph: seq<Byte>, gy: nat, color: Uint16)
      requires Mapped() && |glyph| == 8 && gy < 8
      modifies canvas.pixels
      ensures forall i, j :: Inside(i, j) ==>
        At(i, j) == if InGlyph(glyph, px, py, i, j) && py + gy * FONT_SCALE <= j < py + (gy + 1) * FONT_SCALE then color
                    else old(At(i, j))
    {
      hide GlyphBit;
      var bits, gx := glyph[gy], 0;
      while gx < 5
        invariant 0 <= gx <= 5
        invariant forall i, j :: Inside(i, j) ==>
          At(i, j) == if InGlyph(glyph, px, py, i, j) && py + gy * FONT_SCALE <= j < py + (gy + 1) * FONT_SCALE
                         && i < px + gx * FONT_SCALE then color
                      else old(At(i, j))
      {
        if GlyphBit(bits, gx) {
          DrawBlock(px + gx * FONT_SCALE, py + gy * FONT_SCALE, color);
        }
        gx := gx + 1;
      }
    }

    method DrawChar(px: int, py: int, ch: Byte, color: Uint16)
      requires Valid()
      modifies this`dirty, canvas.pixels
      ensures forall i, j :: Inside(i, j) ==>
        At(i, j) == if InGlyph(Glyph(font, ch), px, py, i, j) then color else old(At(i, j))
      ensures dirty == View().CharDirt(old(dirty), px, py)
      ensures Valid() && (old(Covered()) ==> Covered())
    {
      hide GlyphBit;
      var glyph := Glyph(font, ch);
      DirtyExpand(px, py);
      DirtyExpand(px + 5 * FONT_SCALE - 1, py + 8 * FONT_SCALE - 1);
      DrawGlyph(px, py, glyph, color);
      BoxDirty(old(dirty), px, py, px + 5 * FONT_SCALE - 1, py + 8 * FONT_SCALE - 1, width, height);
      forall i, j | old(Covered()) && Inside(i, j) && At(i, j) != 0 ensures InDirty(dirty, i, j) {
        if !InGlyph(glyph, px, py, i, j) {
          assert old(At(i, j)) != 0;
        }
      }
    }

    method DrawString(x: int, y: int, str: Data, color: Uint16)
      requires Valid()
      modifies this`dirty, canvas.pixels
      ensures forall i, j :: Inside(i, j) ==>
        At(i, j) == if InString(font, str, x, y, i, j) then color else old(At(i, j))
      ensures dirty == View().StringDirt(old(dirty), x, y, |str|)
      ensures Valid() && (old(Covered()) ==> Covered())
    {
      hide GlyphBit, InGlyph, InString, Covered, Glyph, Screen.CharDirt, Screen.StringDirt;
      var k := 0;
      NoString(font, str, x, y, dirty, View());
      while k < |str|
        invariant 0 <= k <= |str|
        invariant forall i, j :: Inside(i, j) ==>
          At(i, j) == if i < x + k * CHAR_W && InString(font, str, x, y, i, j) then color else old(At(i, j))
        invariant Valid() && (old(Covered()) ==> Covered())
        invariant dirty == View().StringDirt(old(dirty), x, y, k)
      {
        DrawChar(x + k * CHAR_W, y, str[k], color);
        forall i, j | Inside(i, j)
          ensures At(i, j)
               == if i < x + (k + 1) * CHAR_W && InString(font, str, x, y, i, j) then color else old(At(i, j))
        {
          NextChar(font, str, x, y, k, i, j);
        }
        NextDirt(View(), old(dirty), x, y, k);
        k := k + 1;
      }
      WholeString(font, str, x, y);
    }

    /** A panel row: its background, and on it the name, a colon and the value. */
    method Text(row: int, name: Data, value: Data)
      requires Valid()
      modifies this`dirty, canvas.pixels
      ensures forall i, j :: Inside(i, j) ==>
        At(i, j) == View().TextColor(TextY(row), TextLine(name, value), old(At(i, j)), i, j)
      ensures dirty == View().TextDirt(old(dirty), TextY(row), |TextLine(name, value)|)
      ensures Valid() && (old(Covered()) ==> Covered())
    {
      hide Covered, InString, InRect, TextLine, Screen.RectDirt, Screen.StringDirt;
      var y := (PANEL_Y + row * ROW_H) % 0x1_0000;
      if y + CHAR_H > height {
        return;
      }
      var line := TextLine(name, value);
      var bgW := (|line| * CHAR_W + 4 * FONT_SCALE) % 0x1_0000;
      assert bgW == |line| * CHAR_W + 4 * FONT_SCALE;
      var bgX, bgY := PANEL_X - 2, y - FONT_SCALE;
      if bgX < 0 { bgX := 0; }
      if bgY < 0 { bgY := 0; }
      Rect(bgX, bgY, bgW, CHAR_H + 2 * FONT_SCALE, SEMITRANS_BLACK, true);
      DrawString(PANEL_X, y, line, WHITE);
    }

    /** Takes the canvas the driver names, if it does, and clears the dirty rectangle on it. If it is the canvas of the
        frame before, nothing stays; on any other, exactly what lies in the rectangle is cleared. */
    method BeginFrame(info: Option<CanvasInfo>)
      requires Valid() && (info.Some? ==> Fits(info.value))
      modifies this, if info.Some? then {info.value.pixels} else {}
      ensures Valid() && canvas == (if info.Some? then info.value else old(canvas))
      ensures dirty == if info.None? then old(dirty) else DirtyRect(width, height, 0, 0)
      ensures info.Some? ==> forall i, j :: Inside(i, j) ==>
        At(i, j) == if InDirty(old(dirty), i, j) then 0 else old(PixelOf(info.value, i, j))
      ensures info.Some? ==>
        (Blank() <==> forall i, j :: Inside(i, j) && old(PixelOf(info.value, i, j)) != 0 ==> InDirty(old(dirty), i, j))
      ensures info == Some(old(canvas)) && old(Covered()) ==> Blank()
      ensures Blank() ==> Covered()
    {
      if info.None? {
        return;
      }
      canvas := info.value;
      if dirty.x1 >= dirty.x0 && dirty.y1 >= dirty.y0 {
        var clearW := dirty.x1 as int - dirty.x0 as int + 1;
        var y: int := dirty.y0;
        while y <= dirty.y1 && y < height
          invariant canvas == info.value && dirty == old(dirty) && dirty.y0 <= y <= dirty.y1 + 1
          invariant forall i, j :: Inside(i, j) ==>
            At(i, j) == if InDirty(dirty, i, j) && j < y then 0 else old(PixelOf(info.value, i, j))
        {
          FillSpan(dirty.x0, y, clearW, 0);
          y := y + 1;
        }
      }
      dirty := DirtyRect(width, height, 0, 0);
    }

    /** Any drawing call. */
    method Apply(call: Drawing)
      requires Valid()
      modifies this`dirty, canvas.pixels
      ensures forall i, j :: Inside(i, j) ==> At(i, j) == View().Color(call, old(At(i, j)), i, j)
      ensures dirty == View().Dirt(call, old(dirty))
      ensures Valid() && (old(Covered()) ==> Covered())
    {
      hide Covered, InRect, InCross, Bresenham.Line.On, Screen.TextColor, Screen.TextDirt, Screen.RectDirt,
           Screen.BoxDirt, PixelOf;
      match call
      case TextRow(row, name, value) => Text(row, name, value);
      case Box(x, y, w, h, color, filled) => Rect(x, y, w, h, color, filled);
      case Cross(x, y, color, size) => Point(x, y, color, size);
      case Segment(x0, y0, x1, y1, color) => Line(x0, y0, x1, y1, color);
    }

    /** The calls of a frame. */
    method Draw(calls: seq<Drawing>)
      requires Valid()
      modifies this`dirty, canvas.pixels
      ensures Valid() && (old(Covered()) ==> Covered()) && dirty == View().DirtFrom(calls, old(dirty))
      ensures forall i, j :: Inside(i, j) ==> At(i, j) == View().Paint(calls, old(At(i, j)), i, j)
    {
      var k := 0;
      while k < |calls|
        invariant 0 <= k <= |calls| && Valid() && (old(Covered()) ==> Covered())
        invariant dirty == View().DirtFrom(calls[..k], old(dirty))
        invariant forall i, j :: Inside(i, j) ==> At(i, j) == View().Paint(calls[..k], old(At(i, j)), i, j)
      {
        assert calls[..k + 1][..k] == calls[..k];
        Apply(calls[k]);
        k := k + 1;
      }
      assert calls[..|calls|] == calls;
    }

    /** Any run of frames on one canvas, each with any drawing calls, and with or without an answer to the query for
        the canvas: wherever it stops, beginning the next frame with an answer leaves every pixel transparent, although
        only the dirty rectangle is cleared. */
    method Run(frames: seq<Frame>)
      requires Valid() && Covered()
      modifies this, canvas.pixels
      ensures Valid() && canvas == old(canvas) && Blank()
    {
      var f := 0;
      while f < |frames|
        invariant 0 <= f <= |frames| && Valid() && canvas == old(canvas) && Covered()
      {
        BeginFrame(if frames[f].answered then Some(canvas) else None);
        var k := 0;
        while k < |frames[f].calls|
          invariant 0 <= k <= |frames[f].calls| && Valid() && canvas == old(canvas) && Covered()
        {
          Apply(frames[f].calls[k]);
          k := k + 1;
        }
        f := f + 1;
      }
      BeginFrame(Some(canvas));
    }

    /** A frame with one of two canvases, or without an answer on the one before. */
    method DrawTurn(first: CanvasInfo, second: CanvasInfo, turn: Turn)
      requires Valid() && Fits(first) && Fits(second) && first.pixels != second.pixels
      requires canvas == first || canvas == second || turn.canvas.Some?
      modifies this, first.pixels, second.pixels
      ensures Valid()
      ensures var pen := View().PenTurn(old(Pen(canvas == second, dirty)), turn);
        canvas == (if pen.second then second else first) && dirty == pen.dirt
      ensures forall i, j :: Inside(i, j) ==>
        Two(PixelOf(first, i, j), PixelOf(second, i, j))
        == View().TwoTurn(old(Two(PixelOf(first, i, j), PixelOf(second, i, j))), old(Pen(canvas == second, dirty)),
                          turn, i, j)
    {
      hide Screen.Paint, Screen.DirtFrom, Covered, PixelOf;
      BeginFrame(match turn.canvas case None => None case Some(b) => Some(if b then second else first));
      Draw(turn.calls);
    }

    /** Any run of frames on two canvases, in whatever order the queries name them, if they are answered, and the
        beginning of one frame more: exactly what each pixel shows then. It is blank just when the dirty rectangle holds
        everything that was left on the canvas it begins on. */
    method RunOnTwo(first: CanvasInfo, second: CanvasInfo, turns: seq<Turn>, last: bool)
      requires Valid() && Fits(first) && Fits(second) && first.pixels != second.pixels
      requires canvas == first || canvas == second || turns == [] || turns[0].canvas.Some?
      modifies this, first.pixels, second.pixels
      ensures Valid() && canvas == (if last then second else first) && dirty == View().NoDirt()
      ensures forall i, j :: Inside(i, j) ==>
        At(i, j)
        == (if InDirty(View().PenAfter(turns, old(Pen(canvas == second, dirty))).dirt, i, j) then 0
            else View().TwoAfter(turns, old(Two(PixelOf(first, i, j), PixelOf(second, i, j))),
                                 old(Pen(canvas == second, dirty)), i, j).On(last))
      ensures Blank()
         <==> forall i, j ::
                Inside(i, j) && !InDirty(View().PenAfter(turns, old(Pen(canvas == second, dirty))).dirt, i, j) ==>
                  View().TwoAfter(turns, old(Two(PixelOf(first, i, j), PixelOf(second, i, j))),
                                  old(Pen(canvas == second, dirty)), i, j).On(last) == 0
    {
      hide Screen.PenTurn, Screen.TwoTurn, Covered, PixelOf;
      ghost var pen := Pen(canvas == second, dirty);
      var n := 0;
      while n < |turns|
        invariant 0 <= n <= |turns| && Valid() && (n == 0 ==> canvas == old(canvas))
        invariant dirty == View().PenAfter(turns[..n], pen).dirt
        invariant (canvas == second) == View().PenAfter(turns[..n], pen).second
        invariant n > 0 ==> canvas == first || canvas == second
        invariant forall i, j :: Inside(i, j) ==>
          Two(PixelOf(first, i, j), PixelOf(second, i, j))
          == View().TwoAfter(turns[..n], old(Two(PixelOf(first, i, j), PixelOf(second, i, j))), pen, i, j)
      {
        assert turns[..n + 1][..n] == turns[..n];
        DrawTurn(first, second, turns[n]);
        n := n + 1;
      }
      assert turns[..|turns|] == turns;
      BeginFrame(Some(if last then second else first));
    }

    /** The same for frames that take turns on the two, all queries answered: it is blank just when the dirty rectangle
        of the last frame holds everything the frame before it left. */
    method RunAlternating(even: CanvasInfo, odd: CanvasInfo, frames: seq<seq<Drawing>>)
      requires Valid() && Fits(even) && Fits(odd) && even.pixels != odd.pixels
      modifies this, even.pixels, odd.pixels
      ensures Valid() && canvas == (if |frames| % 2 == 0 then even else odd) && dirty == View().NoDirt()
      ensures forall i, j :: Inside(i, j) ==>
        At(i, j) == View().Start(frames, |frames|, old(dirty), old(PixelOf(even, i, j)), old(PixelOf(odd, i, j)), i, j)
      ensures |frames| >= 2 ==>
        (Blank()
         <==> forall i, j ::
                Inside(i, j) && !InDirty(View().DirtOf(frames[|frames| - 1]), i, j) ==>
                  View().Left(frames, |frames|, old(dirty), old(PixelOf(even, i, j)), old(PixelOf(odd, i, j)), i, j)
                  == 0)
    {
      hide Screen.PenAfter, Screen.TwoAfter, Screen.Left, Screen.Start, Screen.DirtFrom, Covered, PixelOf;
      ghost var pen := Pen(canvas == odd, dirty);
      RunOnTwo(even, odd, View().Alternating(frames), |frames| % 2 == 1);
      forall i, j | Inside(i, j)
        ensures var c, n := old(Two(PixelOf(even, i, j), PixelOf(odd, i, j))), |frames|;
          var left := View().Left(frames, n, pen.dirt, c.first, c.second, i, j);
          && View().PenAfter(View().Alternating(frames), pen).dirt == View().DirtBefore(frames, n, pen.dirt)
          && View().TwoAfter(View().Alternating(frames), c, pen, i, j).On(n % 2 == 1) == left
          && View().Start(frames, n, pen.dirt, c.first, c.second, i, j)
             == if InDirty(View().DirtBefore(frames, n, pen.dirt), i, j) then 0 else left
      {
        View().StartInTurn(frames, old(Two(PixelOf(even, i, j), PixelOf(odd, i, j))), pen, i, j);
      }
    }
  }

  /** A frame: whether the query for the canvas is answered, and the drawing calls. */
  datatype Frame = Frame(answered: bool, calls: seq<Drawing>)

  /** With two canvases that take turns, what the frame before last drew can stay: the rectangle is about the other
      one. After a frame of one white pixel and an empty one, the third has begun and the pixel is there. */
  method AlternatingCanvases(font: seq<seq<Byte>>) returns (osd: DebugOsdState)
    requires IsFont(font)
    ensures osd.Valid() && osd.dirty == DirtyRect(osd.width, osd.height, 0, 0) && !osd.Blank()
    ensures osd.Inside(0, 0)
    ensures osd.At(0, 0) == osd.View().Start(ONE_PIXEL, 2, osd.View().NoDirt(), 0, 0, 0, 0) == WHITE
  {
    hide Screen.Start;
    var front, back := new Uint16[1], new Uint16[1](_ => 0);
    var a, b := CanvasInfo(front, 1, 0), CanvasInfo(back, 1, 0);
    osd := new DebugOsdState(1, 1, font, a);
    assert osd.PixelOf(a, 0, 0) == osd.At(0, 0) == 0 && osd.PixelOf(b, 0, 0) == 0;
    assert osd.Inside(0, 0);
    osd.RunAlternating(a, b, ONE_PIXEL);
    assert osd.At(0, 0) == osd.View().Start(ONE_PIXEL, 2, osd.View().NoDirt(), 0, 0, 0, 0);
    osd.View().PixelStays();
  }

  /** A span of one row of the array is a span of one row of the canvas. */
  lemma RowOnly(x: int, y: int, count: nat, i: int, j: int, stride: nat)
    requires 0 <= x && x + count <= stride && 0 <= i < stride
    ensures y * stride + x <= j * stride + i < y * stride + x + count <==> y == j && x <= i < x + count
  {
    if y * stride + x <= j * stride + i < y * stride + x + count {
      assert (j - y) * stride == j * stride - y * stride;
      Arith.OnlyZero(j - y, stride, (j - y) * stride);
    }
  }
}
