/** What the drawing calls of src/debug_osd.c draw, and what they add to the dirty rectangle. */
module OsdDrawing {
  import opened Arith
  import opened Bytes
  import opened Bresenham

  const WHITE: Uint16 := 0xFFFF
  const SEMITRANS_BLACK: Uint16 := 0xA000
  const FONT_SCALE := 3
  const PANEL_X := 8
  const PANEL_Y := 8
  const LINE_MAX := 64
  const VALUE_MAX := 48

  /** An inclusive bounding box; empty where `x1 < x0` or `y1 < y0`. */
  datatype DirtyRect = DirtyRect(x0: Uint16, y0: Uint16, x1: Uint16, y1: Uint16)

  predicate InDirty(d: DirtyRect, x: int, y: int) { d.x0 <= x <= d.x1 && d.y0 <= y <= d.y1 }

  function Clamp(n: int, size: nat): int { if n < 0 then 0 else if n >= size then size - 1 else n }

  /** The rectangle with a point in it, or the nearest point of the canvas. */
  function Expanded(d: DirtyRect, x: int, y: int, width: nat, height: nat): DirtyRect
    requires 1 <= width <= 0xFFFF && 1 <= height <= 0xFFFF
  {
    var cx: Uint16, cy: Uint16 := Clamp(x, width), Clamp(y, height);
    DirtyRect(if cx < d.x0 then cx else d.x0, if cy < d.y0 then cy else d.y0,
              if cx > d.x1 then cx else d.x1, if cy > d.y1 then cy else d.y1)
  }

  /** It holds both, and whatever rectangle `u` holds both holds it. */
  lemma ExpandedLeast(d: DirtyRect, x: int, y: int, width: nat, height: nat, u: DirtyRect)
    requires 1 <= width <= 0xFFFF && 1 <= height <= 0xFFFF
    ensures var e := Expanded(d, x, y, width, height);
      && (forall i, j :: InDirty(d, i, j) ==> InDirty(e, i, j))
      && (0 <= x < width && 0 <= y < height ==> InDirty(e, x, y))
    ensures var px, py := if x < 0 then 0 else if x < width then x else width - 1,
                          if y < 0 then 0 else if y < height then y else height - 1;
      u.x0 <= d.x0 && u.y0 <= d.y0 && d.x1 <= u.x1 && d.y1 <= u.y1 && InDirty(u, px, py) ==>
        forall i, j :: InDirty(Expanded(d, x, y, width, height), i, j) ==> InDirty(u, i, j)
  {
  }

  /** In the box two points span. */
  predicate InBox(xa: int, ya: int, xb: int, yb: int, x: int, y: int) { Between(xa, x, xb) && Between(ya, y, yb) }

  // ---- shapes ----

  /** A rectangle, or its outline; its right and bottom edges stand at the last column and row of the canvas if they
      lie outside. */
  predicate InRect(x: int, y: int, w: int, h: int, filled: bool, width: nat, height: nat, i: int, j: int)
  {
    && x <= i < x + w && y <= j < y + h
    && (filled || i == x || j == y || i == Clamp(x + w - 1, width) || j == Clamp(y + h - 1, height))
  }

  /** An upright cross. */
  predicate InCross(x: int, y: int, size: int, i: int, j: int)
  {
    (j == y && x - size <= i <= x + size) || (i == x && y - size <= j <= y + size)
  }

  /** Bit `4 - gx` of a row of a glyph. */
  predicate GlyphBit(bits: Byte, gx: int)
    requires 0 <= gx < 5
  {
    (if gx == 0 then bits / 16 else if gx == 1 then bits / 8 else if gx == 2 then bits / 4
     else if gx == 3 then bits / 2 else bits) % 2 == 1
  }

  /** A font has eight rows for each of 128 characters. */
  predicate IsFont(font: seq<seq<Byte>>) { |font| == 128 && forall c :: 0 <= c < 128 ==> |font[c]| == 8 }

  function Glyph(font: seq<seq<Byte>>, ch: Byte): (g: seq<Byte>)
    requires IsFont(font)
    ensures |g| == 8
  {
    font[if ch < 0x20 || ch > 0x7e then 63 else ch]
  }

  /** A glyph at `(px, py)`, each of its bits a block of pixels. */
  predicate InGlyph(g: seq<Byte>, px: int, py: int, i: int, j: int)
    requires |g| == 8
  {
    && px <= i < px + 5 * FONT_SCALE && py <= j < py + 8 * FONT_SCALE
    && GlyphBit(g[(j - py) / FONT_SCALE], (i - px) / FONT_SCALE)
  }

  const CHAR_W := 6 * FONT_SCALE
  const CHAR_H := 8 * FONT_SCALE
  const ROW_H := CHAR_H + 2 * FONT_SCALE

  /** Character cells side by side. */
  predicate InString(font: seq<seq<Byte>>, str: Data, x: int, y: int, i: int, j: int)
    requires IsFont(font)
  {
    && x <= i < x + |str| * CHAR_W
    && InGlyph(Glyph(font, str[(i - x) / CHAR_W]), x + (i - x) / CHAR_W * CHAR_W, y, i, j)
  }

  /** `snprintf` into a buffer of `size` bytes. */
  function Truncated(d: Data, size: nat): Data
    requires size > 0
  {
    if |d| >= size then d[..size - 1] else d
  }

  /** The text of a panel row: the name, a colon and the value. */
  function TextLine(name: Data, value: Data): (line: Data)
    ensures |line| < LINE_MAX
  {
    Truncated(name + [58, 32] + Truncated(value, VALUE_MAX), LINE_MAX)
  }

  function TextY(row: int): Uint16 { (PANEL_Y + row * ROW_H) % 0x1_0000 }

  predicate InTextBackground(y: int, line: Data, width: nat, height: nat, i: int, j: int)
  {
    InRect(PANEL_X - 2, Max(y - FONT_SCALE, 0), |line| * CHAR_W + 4 * FONT_SCALE, CHAR_H + 2 * FONT_SCALE, true, width,
           height, i, j)
  }

  /** A drawing call. */
  datatype Drawing =
    | TextRow(row: int, name: Data, value: Data)
    | Box(x: Uint16, y: Uint16, w: Uint16, h: Uint16, color: Uint16, filled: bool)
    | Cross(x: Uint16, y: Uint16, color: Uint16, size: int)
    | Segment(x0: Uint16, y0: Uint16, x1: Uint16, y1: Uint16, color: Uint16)

  /** A white pixel, and then nothing. */
  const ONE_PIXEL: seq<seq<Drawing>> := [[Box(0, 0, 1, 1, WHITE, true)], []]

  /** A frame on one of two canvases: which of them the query names, the second or the first, if it is answered; and the
      drawing calls. */
  datatype Turn = Turn(canvas: Option<bool>, calls: seq<Drawing>)

  /** Which of two canvases is drawn on, and the dirty rectangle. */
  datatype Pen = Pen(second: bool, dirt: DirtyRect)

  /** One pixel of two canvases. */
  datatype Two = Two(first: Uint16, second: Uint16) {
    function On(onSecond: bool): Uint16 { if onSecond then second else first }

    function Set(onSecond: bool, color: Uint16): Two
    {
      if onSecond then this.(second := color) else this.(first := color)
    }
  }

  // ---- what a glyph looks like ----

  /** The five columns of a glyph's row. */
  type Columns = c: seq<bool> | |c| == 5 witness [false, false, false, false, false]

  function Weight(lit: bool, weight: nat): nat { if lit then weight else 0 }

  /** A row's value is the sum of its lit columns' weights, the leftmost 16, and of no more than multiples of 32. */
  predicate Pictures(bits: Byte, c: Columns)
  {
    bits % 32 == Weight(c[0], 16) + Weight(c[1], 8) + Weight(c[2], 4) + Weight(c[3], 2) + Weight(c[4], 1)
  }

  lemma GlyphBitMeans(bits: Byte, c: Columns, gx: nat)
    requires Pictures(bits, c) && gx < 5
    ensures GlyphBit(bits, gx) <==> c[gx]
  {
    hide GlyphBit;
    SumBits(bits, bits / 32, Weight(c[0], 1), Weight(c[1], 1), Weight(c[2], 1), Weight(c[3], 1), Weight(c[4], 1));
    BitTested(bits, gx);
  }

  lemma BitTested(bits: Byte, gx: nat)
    requires gx < 5
    ensures GlyphBit(bits, gx)
        <==> [bits / 16 % 2, bits / 8 % 2, bits / 4 % 2, bits / 2 % 2, bits % 2][gx] == 1
  {
  }

  lemma SumBits(n: nat, q: nat, a: nat, b: nat, c: nat, d: nat, e: nat)
    requires a <= 1 && b <= 1 && c <= 1 && d <= 1 && e <= 1 && n == 32 * q + 16 * a + 8 * b + 4 * c + 2 * d + e
    ensures n / 16 % 2 == a && n / 8 % 2 == b && n / 4 % 2 == c && n / 2 % 2 == d && n % 2 == e
  {
    var h16 := 2 * q + a;
    var h8 := 2 * h16 + b;
    var h4 := 2 * h8 + c;
    var h2 := 2 * h4 + d;
    Halve(n, h2, e);
    Halve(h2, h4, d);
    Halve(h4, h8, c);
    Halve(h8, h16, b);
    Halve(h16, q, a);
    HalveAgain(n);
  }

  lemma Halve(n: nat, half: nat, w: nat)
    requires w <= 1 && n == 2 * half + w
    ensures n / 2 == half && n % 2 == w
  {
  }

  lemma HalveAgain(n: nat)
    ensures n / 4 == n / 2 / 2 && n / 8 == n / 4 / 2 && n / 16 == n / 8 / 2
  {
  }

  /** A glyph drawn at `(px, py)`: each column of each of its eight rows is a block of three by three pixels, all drawn
      if it is lit and none if it is not. */
  lemma GlyphPicture(g: seq<Byte>, rows: seq<Columns>, px: int, py: int, gx: nat, gy: nat, sx: nat, sy: nat)
    requires |g| == |rows| == 8 && forall k :: 0 <= k < 8 ==> Pictures(g[k], rows[k])
    requires gx < 5 && gy < 8 && sx < 3 && sy < 3
    ensures InGlyph(g, px, py, px + gx * 3 + sx, py + gy * 3 + sy) <==> rows[gy][gx]
  {
    hide GlyphBit, Pictures;
    GlyphBitMeans(g[gy], rows[gy], gx);
  }

  /** Nothing of it is drawn outside of these blocks. */
  lemma GlyphCells(g: seq<Byte>, px: int, py: int, i: int, j: int) returns (gx: nat, gy: nat, sx: nat, sy: nat)
    requires |g| == 8 && InGlyph(g, px, py, i, j)
    ensures gx < 5 && gy < 8 && sx < 3 && sy < 3 && i == px + gx * 3 + sx && j == py + gy * 3 + sy
  {
    hide GlyphBit;
    gx, gy, sx, sy := (i - px) / 3, (j - py) / 3, (i - px) % 3, (j - py) % 3;
  }

  /** Character `k` of a string stands 18 pixels to the right of the one before, and the last three of these stay free.
      Characters outside of `' '` to `'~'` are drawn as `'?'`. */
  lemma StringCells(font: seq<seq<Byte>>, str: Data, x: int, y: int, k: nat, i: nat, j: int)
    requires IsFont(font) && k < |str| && i < 18
    ensures InString(font, str, x, y, x + k * 18 + i, j)
        <==> (i < 15 && InGlyph(font[if 32 <= str[k] <= 126 then str[k] else 63], x + k * 18, y, x + k * 18 + i, j))
  {
    hide GlyphBit;
    assert (k * 18 + i) / 18 == k;
  }

  /** A row of the panel is the name, a colon, a blank and the value, as long as both buffers hold them. */
  lemma TextLineWhole(name: Data, value: Data)
    requires |value| < 48 && |name| + 2 + |value| < 64
    ensures TextLine(name, value) == name + [58, 32] + value
  {
  }

  // ---- what calls do to a pixel and to the dirty rectangle ----

  datatype Screen = Screen(width: nat, height: nat, font: seq<seq<Byte>>) {

    ghost predicate Valid() { 1 <= width <= 0xFFFF && 1 <= height <= 0xFFFF && IsFont(font) }

    predicate Inside(x: int, y: int) { 0 <= x < width && 0 <= y < height }

    function NoDirt(): DirtyRect
      requires Valid()
    {
      DirtyRect(width, height, 0, 0)
    }

    /** The dirty rectangle with a box in it. */
    function BoxDirt(d: DirtyRect, x0: int, y0: int, x1: int, y1: int): DirtyRect
      requires Valid()
    {
      Expanded(Expanded(d, x0, y0, width, height), x1, y1, width, height)
    }

    function RectDirt(d: DirtyRect, x: int, y: int, w: int, h: int): DirtyRect
      requires Valid()
    {
      if w == 0 || h == 0 || x >= width || y >= height then d else BoxDirt(d, x, y, x + w - 1, y + h - 1)
    }

    function CharDirt(d: DirtyRect, px: int, py: int): DirtyRect
      requires Valid()
    {
      BoxDirt(d, px, py, px + 5 * FONT_SCALE - 1, py + 8 * FONT_SCALE - 1)
    }

    function StringDirt(d: DirtyRect, x: int, y: int, n: nat): DirtyRect
      requires Valid()
    {
      if n == 0 then d else CharDirt(StringDirt(d, x, y, n - 1), x + (n - 1) * CHAR_W, y)
    }

    function TextDirt(d: DirtyRect, y: int, length: nat): DirtyRect
      requires Valid()
    {
      if y + CHAR_H > height then d
      else StringDirt(RectDirt(d, PANEL_X - 2, Max(y - FONT_SCALE, 0), length * CHAR_W + 4 * FONT_SCALE,
                               CHAR_H + 2 * FONT_SCALE), PANEL_X, y, length)
    }

    /** The dirty rectangle after a call. */
    function Dirt(call: Drawing, d: DirtyRect): DirtyRect
      requires Valid()
    {
      match call
      case TextRow(row, name, value) => TextDirt(d, TextY(row), |TextLine(name, value)|)
      case Box(x, y, w, h, _, _) => RectDirt(d, x, y, w, h)
      case Cross(x, y, _, size) => BoxDirt(d, x as int - size, y as int - size, x as int + size, y as int + size)
      case Segment(x0, y0, x1, y1, _) => BoxDirt(d, x0, y0, x1, y1)
    }

    function TextColor(y: int, line: Data, c: Uint16, i: int, j: int): Uint16
      requires Valid()
    {
      if y + CHAR_H > height then c
      else if InString(font, line, PANEL_X, y, i, j) then WHITE
      else if InTextBackground(y, line, width, height, i, j) then SEMITRANS_BLACK
      else c
    }

    /** The color of a pixel after a call, `c` before. */
    ghost function Color(call: Drawing, c: Uint16, i: int, j: int): Uint16
      requires Valid()
    {
      match call
      case TextRow(row, name, value) => TextColor(TextY(row), TextLine(name, value), c, i, j)
      case Box(x, y, w, h, color, filled) => if InRect(x, y, w, h, filled, width, height, i, j) then color else c
      case Cross(x, y, color, size) => if InCross(x, y, size, i, j) then color else c
      case Segment(x0, y0, x1, y1, color) => if Bresenham.Line(x0, y0, x1, y1).On(i, j) then color else c
    }

    /** The dirty rectangle after some calls. */
    function DirtFrom(calls: seq<Drawing>, d: DirtyRect): DirtyRect
      requires Valid()
    {
      if calls == [] then d else Dirt(calls[|calls| - 1], DirtFrom(calls[..|calls| - 1], d))
    }

    /** The dirty rectangle after the calls of a frame. */
    function DirtOf(calls: seq<Drawing>): DirtyRect
      requires Valid()
    {
      DirtFrom(calls, NoDirt())
    }

    /** The color of a pixel after the calls of a frame. */
    ghost function Paint(calls: seq<Drawing>, c: Uint16, i: int, j: int): Uint16
      requires Valid()
    {
      if calls == [] then c else Color(calls[|calls| - 1], Paint(calls[..|calls| - 1], c, i, j), i, j)
    }

    // ---- two canvases ----

    /** Where drawing goes, and the dirty rectangle, once a frame has begun. */
    function PenBegin(p: Pen, canvas: Option<bool>): Pen
      requires Valid()
    {
      match canvas case None => p case Some(second) => Pen(second, NoDirt())
    }

    /** And after its calls. */
    function PenTurn(p: Pen, turn: Turn): Pen
      requires Valid()
    {
      var begun := PenBegin(p, turn.canvas);
      begun.(dirt := DirtFrom(turn.calls, begun.dirt))
    }

    function PenAfter(turns: seq<Turn>, p: Pen): Pen
      requires Valid()
    {
      if turns == [] then p else PenTurn(PenAfter(turns[..|turns| - 1], p), turns[|turns| - 1])
    }

    /** A pixel of both canvases once a frame has begun: what the dirty rectangle holds is cleared on the one named. */
    function TwoBegin(c: Two, p: Pen, canvas: Option<bool>, i: int, j: int): Two
    {
      match canvas case None => c case Some(second) => if InDirty(p.dirt, i, j) then c.Set(second, 0) else c
    }

    /** And after its calls. */
    ghost function TwoTurn(c: Two, p: Pen, turn: Turn, i: int, j: int): Two
      requires Valid()
    {
      var begun, second := TwoBegin(c, p, turn.canvas, i, j), PenBegin(p, turn.canvas).second;
      begun.Set(second, Paint(turn.calls, begun.On(second), i, j))
    }

    ghost function TwoAfter(turns: seq<Turn>, c: Two, p: Pen, i: int, j: int): Two
      requires Valid()
    {
      if turns == [] then c
      else
        var front := turns[..|turns| - 1];
        TwoTurn(TwoAfter(front, c, p, i, j), PenAfter(front, p), turns[|turns| - 1], i, j)
    }

    // ---- two canvases in turn ----

    function Alternating(frames: seq<seq<Drawing>>): (turns: seq<Turn>)
      ensures |turns| == |frames|
    {
      seq(|frames|, n requires 0 <= n < |frames| => Turn(Some(n % 2 == 1), frames[n]))
    }

    /** The dirty rectangle when frame `n` begins, `d` when the first one does. */
    function DirtBefore(frames: seq<seq<Drawing>>, n: nat, d: DirtyRect): DirtyRect
      requires Valid() && n <= |frames|
    {
      if n == 0 then d else DirtOf(frames[n - 1])
    }

    /** The color of a pixel on the canvas of frame `n` before that frame, which is what frame `n - 2` left there; `c0`
        and `c1` are what the two canvases show at first. */
    ghost function Left(frames: seq<seq<Drawing>>, n: nat, d: DirtyRect, c0: Uint16, c1: Uint16, i: int, j: int): Uint16
      requires Valid() && n <= |frames| + 1
      decreases n, 0
    {
      if n == 0 then c0 else if n == 1 then c1
      else Paint(frames[n - 2], Start(frames, n - 2, d, c0, c1, i, j), i, j)
    }

    /** And when it has begun. */
    ghost function Start(frames: seq<seq<Drawing>>, n: nat, d: DirtyRect, c0: Uint16, c1: Uint16, i: int, j: int)
      : Uint16
      requires Valid() && n <= |frames|
      decreases n, 1
    {
      if InDirty(DirtBefore(frames, n, d), i, j) then 0 else Left(frames, n, d, c0, c1, i, j)
    }

    lemma LeftNext(frames: seq<seq<Drawing>>, n: nat, d: DirtyRect, c0: Uint16, c1: Uint16, i: int, j: int)
      requires Valid() && n < |frames|
      ensures Left(frames, n + 2, d, c0, c1, i, j)
           == Paint(frames[n], if InDirty(DirtBefore(frames, n, d), i, j) then 0 else Left(frames, n, d, c0, c1, i, j),
                    i, j)
    {
    }

    /** What the canvases show after `n` frames in turn: on the one whose turn is next what the frame before last left,
        on the other one what the last frame did. */
    lemma {:induction false} InTurn(frames: seq<seq<Drawing>>, n: nat, c: Two, p: Pen, i: int, j: int)
      requires Valid() && n <= |frames|
      ensures PenAfter(Alternating(frames)[..n], p).dirt == DirtBefore(frames, n, p.dirt)
      ensures var after, next := TwoAfter(Alternating(frames)[..n], c, p, i, j), n % 2 == 1;
        && after.On(next) == Left(frames, n, p.dirt, c.first, c.second, i, j)
        && after.On(!next) == Left(frames, n + 1, p.dirt, c.first, c.second, i, j)
    {
      hide Paint, DirtFrom, InDirty, Alternating, Left, PenAfter, TwoAfter, TwoTurn, Two.On;
      if n == 0 {
        NoTurns(frames, c, p, i, j);
        assert Alternating(frames)[..0] == [];
      } else {
        var m, turns := n - 1, Alternating(frames);
        var next, t := m % 2 == 1, Turn(Some(m % 2 == 1), frames[m]);
        TurnAt(frames, m);
        assert turns[..n] == turns[..m] + [t];
        InTurn(frames, m, c, p, i, j);
        AfterOne(turns[..m], t, c, p, i, j);
        TwoTurnOn(TwoAfter(turns[..m], c, p, i, j), PenAfter(turns[..m], p), next, frames[m], i, j);
        LeftNext(frames, m, p.dirt, c.first, c.second, i, j);
        assert (n % 2 == 1) == !next;
      }
    }

    lemma NoTurns(frames: seq<seq<Drawing>>, c: Two, p: Pen, i: int, j: int)
      requires Valid()
      ensures PenAfter([], p) == p && TwoAfter([], c, p, i, j) == c
      ensures c.On(false) == Left(frames, 0, p.dirt, c.first, c.second, i, j)
      ensures c.On(true) == Left(frames, 1, p.dirt, c.first, c.second, i, j)
    {
    }

    lemma TwoTurnOn(c: Two, p: Pen, second: bool, calls: seq<Drawing>, i: int, j: int)
      requires Valid()
      ensures var after := TwoTurn(c, p, Turn(Some(second), calls), i, j);
        && after.On(second) == Paint(calls, if InDirty(p.dirt, i, j) then 0 else c.On(second), i, j)
        && after.On(!second) == c.On(!second)
    {
      hide Paint, InDirty;
    }

    lemma TurnAt(frames: seq<seq<Drawing>>, n: nat)
      requires n < |frames|
      ensures Alternating(frames)[n] == Turn(Some(n % 2 == 1), frames[n])
    {
    }

    lemma AfterOne(turns: seq<Turn>, t: Turn, c: Two, p: Pen, i: int, j: int)
      requires Valid()
      ensures PenAfter(turns + [t], p) == PenTurn(PenAfter(turns, p), t)
      ensures TwoAfter(turns + [t], c, p, i, j) == TwoTurn(TwoAfter(turns, c, p, i, j), PenAfter(turns, p), t, i, j)
    {
      hide PenTurn, TwoTurn;
      assert (turns + [t])[..|turns|] == turns;
    }

    /** What a frame starts on is what was left there, less what is dirty. */
    lemma StartInTurn(frames: seq<seq<Drawing>>, c: Two, p: Pen, i: int, j: int)
      requires Valid()
      ensures var turns, n := Alternating(frames), |frames|;
        var left := Left(frames, n, p.dirt, c.first, c.second, i, j);
        && PenAfter(turns, p).dirt == DirtBefore(frames, n, p.dirt)
        && TwoAfter(turns, c, p, i, j).On(n % 2 == 1) == left
        && Start(frames, n, p.dirt, c.first, c.second, i, j)
           == if InDirty(DirtBefore(frames, n, p.dirt), i, j) then 0 else left
    {
      hide Paint, DirtFrom, InDirty, PenAfter, TwoAfter, Left;
      assert Alternating(frames)[..|frames|] == Alternating(frames);
      InTurn(frames, |frames|, c, p, i, j);
    }

    /** Frame `n` starts on a transparent canvas, if both were at first. */
    ghost predicate StartsBlank(frames: seq<seq<Drawing>>, n: nat)
      requires Valid() && n <= |frames|
    {
      forall i, j :: Inside(i, j) ==> Start(frames, n, NoDirt(), 0, 0, i, j) == 0
    }

    /** Everything the calls draw on a transparent canvas lies in what the next ones make dirty. */
    ghost predicate HiddenBy(calls: seq<Drawing>, next: seq<Drawing>)
      requires Valid()
    {
      forall i, j :: Inside(i, j) && Paint(calls, 0, i, j) != 0 ==> InDirty(DirtOf(next), i, j)
    }

    /** They do not always: what the first of three frames drew stays, with a second one that draws nothing. */
    lemma PixelStays()
      requires Valid() && Inside(0, 0)
      ensures Start(ONE_PIXEL, 2, NoDirt(), 0, 0, 0, 0) == WHITE && !StartsBlank(ONE_PIXEL, 2)
    {
      var box := ONE_PIXEL[0][0];
      assert Color(box, 0, 0, 0) == WHITE;
      assert ONE_PIXEL[0][..0] == [];
      assert Paint(ONE_PIXEL[0], 0, 0, 0) == WHITE;
      assert Left(ONE_PIXEL, 2, NoDirt(), 0, 0, 0, 0) == WHITE;
      assert Start(ONE_PIXEL, 2, NoDirt(), 0, 0, 0, 0) == WHITE;
    }

    /** Every frame starts blank exactly if everything each frame draws lies in the dirty rectangle of the next one. */
    lemma {:induction false} AllStartBlank(frames: seq<seq<Drawing>>, upto: nat)
      requires Valid() && upto <= |frames|
      ensures (forall n :: 0 <= n <= upto ==> StartsBlank(frames, n))
          <==> forall n :: 0 <= n < upto - 1 ==> HiddenBy(frames[n], frames[n + 1])
    {
      if upto <= 1 {
        assert forall n :: 0 <= n <= upto ==> StartsBlank(frames, n);
      } else {
        AllStartBlank(frames, upto - 1);
        if StartsBlank(frames, upto - 2) {
          BlankIff(frames, upto);
        }
      }
    }

    /** After a blank start two frames before, a frame starts blank exactly if the frame in between hid all that. */
    lemma BlankIff(frames: seq<seq<Drawing>>, n: nat)
      requires Valid() && 2 <= n <= |frames| && StartsBlank(frames, n - 2)
      ensures StartsBlank(frames, n) <==> HiddenBy(frames[n - 2], frames[n - 1])
    {
      hide Paint, DirtFrom;
      forall i, j | Inside(i, j)
        ensures Start(frames, n, NoDirt(), 0, 0, i, j)
             == if InDirty(DirtOf(frames[n - 1]), i, j) then 0 else Paint(frames[n - 2], 0, i, j)
      {
        assert Start(frames, n - 2, NoDirt(), 0, 0, i, j) == 0;
      }
    }
  }

  /** The string up to a character and that character are the string up to the next one. */
  lemma NextChar(font: seq<seq<Byte>>, str: Data, x: int, y: int, k: nat, i: int, j: int)
    requires IsFont(font) && k < |str|
    ensures i < x + (k + 1) * CHAR_W && InString(font, str, x, y, i, j)
         <==> ((i < x + k * CHAR_W && InString(font, str, x, y, i, j))
               || InGlyph(Glyph(font, str[k]), x + k * CHAR_W, y, i, j))
  {
    hide Glyph, GlyphBit;
    if x + k * CHAR_W <= i < x + (k + 1) * CHAR_W {
      assert (i - x) / CHAR_W == k;
    }
  }

  lemma NoString(font: seq<seq<Byte>>, str: Data, x: int, y: int, d: DirtyRect, screen: Screen)
    requires IsFont(font) && screen.Valid()
    ensures forall i, j :: i < x ==> !InString(font, str, x, y, i, j)
    ensures screen.StringDirt(d, x, y, 0) == d
  {
  }

  lemma WholeString(font: seq<seq<Byte>>, str: Data, x: int, y: int)
    requires IsFont(font)
    ensures forall i, j :: InString(font, str, x, y, i, j) ==> i < x + |str| * CHAR_W
  {
  }

  lemma NextDirt(screen: Screen, d: DirtyRect, x: int, y: int, k: nat)
    requires screen.Valid()
    ensures screen.StringDirt(d, x, y, k + 1) == screen.CharDirt(screen.StringDirt(d, x, y, k), x + k * CHAR_W, y)
  {
  }

  /** A rectangle spanned by two points, as far as it lies on the canvas, lies in the dirty rectangle once both are in;
      and what was in there stays. */
  lemma BoxDirty(d: DirtyRect, xa: int, ya: int, xb: int, yb: int, width: nat, height: nat)
    requires 1 <= width <= 0xFFFF && 1 <= height <= 0xFFFF
    ensures var d' := Expanded(Expanded(d, xa, ya, width, height), xb, yb, width, height);
      && (d.x1 < width && d.y1 < height ==> d'.x1 < width && d'.y1 < height)
      && (forall i, j :: InDirty(d, i, j) ==> InDirty(d', i, j))
      && (forall i, j :: 0 <= i < width && 0 <= j < height && InBox(xa, ya, xb, yb, i, j) ==> InDirty(d', i, j))
  {
  }

  lemma ExpandClamped(d: DirtyRect, x: int, y: int, x': int, y': int, width: nat, height: nat)
    requires 1 <= width <= 0xFFFF && 1 <= height <= 0xFFFF
    requires Clamp(x, width) == Clamp(x', width) && Clamp(y, height) == Clamp(y', height)
    ensures Expanded(d, x, y, width, height) == Expanded(d, x', y', width, height)
  {
  }

  lemma OnInBox(l: Line)
    ensures forall i, j :: l.On(i, j) ==> InBox(l.x0, l.y0, l.x1, l.y1, i, j)
  {
    forall i, j | l.On(i, j) ensures InBox(l.x0, l.y0, l.x1, l.y1, i, j) {
      var k: nat :| k <= l.Length() && l.CellX(k) == i && l.CellY(k) == j;
      LineInBox(l, k);
    }
  }
}
