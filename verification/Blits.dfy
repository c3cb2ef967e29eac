/**
 Images with one transparent colour. Opaque pixels are collected and sent a run at a
 time; the picture is that of the plain rule, pixel by pixel.
 */
module Blits {
  import opened Bytes
  import opened Panel
  import opened Tft

  /** What an image has at a column and row: a colour, or nothing. */
  type Source = (int, int) -> Option<Color>

  /** The plain rule: every visible pixel of the image that is not transparent is copied. */
  ghost function Blit(f: Frame, v: Viewport, x: int, y: int, w: int, h: int, src: Source): (r: Frame)
    ensures r.Keys == f.Keys
  {
    map p | p in f ::
      var a, b := p.x - v.xDatum - x, p.y - v.yDatum - y;
      if p in v.Clip() && 0 <= a < w && 0 <= b < h && src(a, b).Some? then src(a, b).value else f[p]
  }

  /** The visible part of an image: where it starts on the screen and in the image, and its size. */
  datatype Part = Part(x: int, y: int, dx: int, dy: int, dw: int, dh: int)

  /** The clipping that all image routines start with. */
  function PiClip(v: Viewport, x0: int, y0: int, w: int, h: int): (r: Option<Part>)
    ensures r.Some? ==> var c := r.value;
              && c.dw >= 1 && c.dh >= 1 && 0 <= c.dx && c.dx + c.dw <= w && 0 <= c.dy && c.dy + c.dh <= h
              && c.x - c.dx == x0 + v.xDatum && c.y - c.dy == y0 + v.yDatum
  {
    if v.oob then None
    else
      var x, y := x0 + v.xDatum, y0 + v.yDatum;
      if x >= v.w || y >= v.h then None
      else
        var dx := if x < v.x then v.x - x else 0;
        var dy := if y < v.y then v.y - y else 0;
        var dw, dh := w - dx, h - dy;
        var x, y := if x < v.x then v.x else x, if y < v.y then v.y else y;
        var dw := if x + dw > v.w then v.w - x else dw;
        var dh := if y + dh > v.h then v.h - y else dh;
        if dw < 1 || dh < 1 then None else Some(Part(x, y, dx, dy, dw, dh))
  }

  /** The part is exactly what shows of the image. */
  lemma PiClipIsExact(v: Viewport, x0: int, y0: int, w: int, h: int)
    ensures v.Seen(Rect(x0, y0, w, h)) ==
            match PiClip(v, x0, y0, w, h) case None => iset{} case Some(c) => Rect(c.x, c.y, c.dw, c.dh)
  {
  }

  /** The picture with the first `rows` rows of the part copied, and `cols` pixels of the next. */
  ghost function Copied(f: Frame, c: Part, rows: int, cols: int, src: Source): (r: Frame)
    ensures r.Keys == f.Keys
  {
    map p | p in f :: CopiedAt(f[p], c, rows, cols, src, p)
  }

  /** Pixel `p` of that picture, where `was` is the colour it had. */
  ghost function CopiedAt(was: Color, c: Part, rows: int, cols: int, src: Source, p: Pt): Color {
    var i, j := p.x - c.x, p.y - c.y;
    if 0 <= i < c.dw && (0 <= j < rows || (j == rows && i < cols)) && src(c.dx + i, c.dy + j).Some?
    then src(c.dx + i, c.dy + j).value else was
  }

  lemma CopiedAll(f: Frame, v: Viewport, x0: int, y0: int, w: int, h: int, src: Source)
    ensures match PiClip(v, x0, y0, w, h)
            case None => Blit(f, v, x0, y0, w, h, src) == f
            case Some(c) => Blit(f, v, x0, y0, w, h, src) == Copied(f, c, c.dh, 0, src)
  {
    PiClipIsExact(v, x0, y0, w, h);
    match PiClip(v, x0, y0, w, h)
    case None =>
      BlitWithin(f, v, x0, y0, w, h, Part(0, 0, 0, 0, 0, 0), src);
    case Some(c) =>
      BlitWithin(f, v, x0, y0, w, h, c, src);
  }

  lemma BlitWithin(f: Frame, v: Viewport, x0: int, y0: int, w: int, h: int, c: Part, src: Source)
    requires v.Seen(Rect(x0, y0, w, h)) == Rect(c.x, c.y, c.dw, c.dh)
    requires c.dw > 0 ==> c.x - c.dx == x0 + v.xDatum && c.y - c.dy == y0 + v.yDatum
    ensures Blit(f, v, x0, y0, w, h, src) == Copied(f, c, c.dh, 0, src)
    ensures c.dw == 0 ==> Blit(f, v, x0, y0, w, h, src) == f
  {
    hide v.Clip;
    var l, r := Blit(f, v, x0, y0, w, h, src), Copied(f, c, c.dh, 0, src);
    forall p | p in f ensures l[p] == r[p] && (c.dw == 0 ==> l[p] == f[p]) {
      SeenPixel(v, x0, y0, w, h, c, p);
    }
  }

  lemma SeenPixel(v: Viewport, x0: int, y0: int, w: int, h: int, c: Part, p: Pt)
    requires v.Seen(Rect(x0, y0, w, h)) == Rect(c.x, c.y, c.dw, c.dh)
    ensures 0 <= p.x - c.x < c.dw && 0 <= p.y - c.y < c.dh <==>
            p in v.Clip() && 0 <= p.x - v.xDatum - x0 < w && 0 <= p.y - v.yDatum - y0 < h
  {
    hide v.Clip;
    assert p in v.Seen(Rect(x0, y0, w, h)) <==> p in Rect(c.x, c.y, c.dw, c.dh);
  }

  lemma CopiedNothing(f: Frame, c: Part, src: Source)
    ensures Copied(f, c, 0, 0, src) == f
  {
  }

  lemma CopiedRow(f: Frame, c: Part, rows: int, src: Source)
    requires rows >= 0
    ensures Copied(f, c, rows, c.dw, src) == Copied(f, c, rows + 1, 0, src)
  {
  }

  lemma CopiedSkip(f: Frame, c: Part, rows: int, cols: int, src: Source)
    requires rows >= 0 && src(c.dx + cols, c.dy + rows) == None
    ensures Copied(f, c, rows, cols, src) == Copied(f, c, rows, cols + 1, src)
  {
  }

  /** The pixels of a line buffer sent to row `y`, from column `sx` on. */
  ghost function Lined(f: Frame, sx: int, y: int, buf: seq<Color>): (r: Frame)
    ensures r.Keys == f.Keys
  {
    map p | p in f :: if p.y == y && 0 <= p.x - sx < |buf| then buf[p.x - sx] else f[p]
  }

  lemma CopiedRun(f: Frame, c: Part, rows: int, cols: int, buf: seq<Color>, src: Source)
    requires 0 <= cols && cols + |buf| <= c.dw && rows >= 0
    requires forall k :: 0 <= k < |buf| ==> src(c.dx + cols + k, c.dy + rows) == Some(buf[k])
    ensures Lined(Copied(f, c, rows, cols, src), c.x + cols, c.y + rows, buf) == Copied(f, c, rows, cols + |buf|, src)
  {
    var g, r := Lined(Copied(f, c, rows, cols, src), c.x + cols, c.y + rows, buf), Copied(f, c, rows, cols + |buf|, src);
    hide CopiedAt;
    forall p | p in f ensures g[p] == r[p] {
      CopiedRunAt(f[p], c, rows, cols, buf, src, p);
    }
  }

  lemma CopiedRunAt(was: Color, c: Part, rows: int, cols: int, buf: seq<Color>, src: Source, p: Pt)
    requires 0 <= cols && cols + |buf| <= c.dw && rows >= 0
    requires forall k :: 0 <= k < |buf| ==> src(c.dx + cols + k, c.dy + rows) == Some(buf[k])
    ensures CopiedAt(was, c, rows, cols + |buf|, src, p) ==
            var k := p.x - (c.x + cols);
            if p.y == c.y + rows && 0 <= k < |buf| then buf[k] else CopiedAt(was, c, rows, cols, src, p)
  {
    var k := p.x - c.x - cols;
    if p.y == c.y + rows && 0 <= k < |buf| {
      assert src(c.dx + cols + k, c.dy + rows) == Some(buf[k]);
    }
  }

  /** Sends a line buffer as a window of one row. */
  method PushLine(d: Display, sx: int, y: int, buf: seq<Color>)
    requires d.Valid() && buf != [] && 0 <= sx && sx + |buf| <= d.width && 0 <= y < d.height
    modifies d`addrCol, d`addrRow, d`window, d`sent, d`frame
    ensures d.Valid() && d.frame == Lined(old(d.frame), sx, y, buf)
  {
    hide d.FrameOk, d.CacheOk, Painted;
    d.SetWindow(sx, y, sx + |buf| - 1, y);
    var k := 0;
    while k < |buf|
      invariant 0 <= k <= |buf| && d.Valid() && d.sent == k && d.window == Window(sx, y, sx + |buf| - 1, y)
      invariant d.frame == Lined(old(d.frame), sx, y, buf[..k])
    {
      OneRow(sx, y, |buf|, k);
      LinedGrows(old(d.frame), sx, y, buf, k);
      d.PushColor(buf[k]);
      k := k + 1;
    }
    assert buf[..k] == buf;
  }

  lemma OneRow(sx: int, y: int, n: nat, k: nat)
    requires k < n
    ensures Window(sx, y, sx + n - 1, y).At(k) == Pt(sx + k, y)
    ensures Window(sx, y, sx + n - 1, y).Area() == n
  {
    EuclidUnique(k, n, 0, k);
  }

  lemma LinedGrows(f: Frame, sx: int, y: int, buf: seq<Color>, k: nat)
    requires k < |buf|
    ensures Painted(Lined(f, sx, y, buf[..k]), iset{Pt(sx + k, y)}, buf[k]) == Lined(f, sx, y, buf[..k + 1])
  {
  }

  /** A row in the making: `buf` holds the opaque pixels just before column `col`, which are
      still to be sent, to column `sx` on; everything before them is on the screen. */
  ghost predicate Batching(before: Frame, f: Frame, c: Part, row: int, col: int, sx: int, buf: seq<Color>, src: Source) {
    && 0 <= row < c.dh && |buf| <= col <= c.dw
    && (buf != [] ==> sx == c.x + col - |buf|)
    && f == Copied(before, c, row, col - |buf|, src)
    && forall k :: 0 <= k < |buf| ==> src(c.dx + (col - |buf|) + k, c.dy + row) == Some(buf[k])
  }

  lemma StartRow(before: Frame, f: Frame, c: Part, row: int, sx: int, src: Source)
    requires 0 <= row < c.dh && 0 <= c.dw && f == Copied(before, c, row, 0, src)
    ensures Batching(before, f, c, row, 0, sx, [], src)
  {
  }

  /** An opaque pixel joins the run. */
  lemma Collect(before: Frame, f: Frame, c: Part, row: int, col: int, sx: int, buf: seq<Color>, src: Source, color: Color)
    requires Batching(before, f, c, row, col, sx, buf, src) && col < c.dw && src(c.dx + col, c.dy + row) == Some(color)
    ensures Batching(before, f, c, row, col + 1, if buf == [] then c.x + col else sx, buf + [color], src)
  {
    hide Copied;
  }

  /** Sends the run, if there is one. */
  method Flush(d: Display, sx: int, y: int, buf: seq<Color>, ghost before: Frame, ghost c: Part, ghost row: int, ghost col: int, ghost src: Source)
    requires d.Valid() && 0 <= c.x && c.x + c.dw <= d.width && 0 <= c.y && c.y + c.dh <= d.height && y == c.y + row
    requires Batching(before, d.frame, c, row, col, sx, buf, src)
    modifies d`addrCol, d`addrRow, d`window, d`sent, d`frame
    ensures d.Valid() && d.frame == Copied(before, c, row, col, src)
  {
    hide d.Valid, Copied, Lined;
    if buf != [] {
      CopiedRun(before, c, row, col - |buf|, buf, src);
      PushLine(d, sx, y, buf);
    }
  }

  /** A transparent pixel ends the run. */
  method EndRun(d: Display, sx: int, y: int, buf: seq<Color>, ghost before: Frame, ghost c: Part, ghost row: int, ghost col: int, ghost src: Source)
    requires d.Valid() && 0 <= c.x && c.x + c.dw <= d.width && 0 <= c.y && c.y + c.dh <= d.height && y == c.y + row
    requires Batching(before, d.frame, c, row, col, sx, buf, src) && col < c.dw && src(c.dx + col, c.dy + row) == None
    modifies d`addrCol, d`addrRow, d`window, d`sent, d`frame
    ensures d.Valid() && Batching(before, d.frame, c, row, col + 1, sx, [], src)
  {
    hide d.Valid, Copied;
    Flush(d, sx, y, buf, before, c, row, col, src);
    CopiedSkip(before, c, row, col, src);
  }

  /** One pixel of a row: an opaque one joins the run, a transparent one ends it. `move` says
      that the next opaque pixel starts a new run. */
  method Take(d: Display, px: int, y: int, sx0: int, move0: bool, buf0: seq<Color>, pixel: Option<Color>,
              ghost before: Frame, ghost c: Part, ghost row: int, ghost col: int, ghost src: Source)
    returns (sx: int, move: bool, buf: seq<Color>)
    requires d.Valid() && 0 <= c.x && c.x + c.dw <= d.width && 0 <= c.y && c.y + c.dh <= d.height
    requires y == c.y + row && px == c.x + col && (move0 <==> buf0 == [])
    requires Batching(before, d.frame, c, row, col, sx0, buf0, src) && col < c.dw && src(c.dx + col, c.dy + row) == pixel
    modifies d`addrCol, d`addrRow, d`window, d`sent, d`frame
    ensures d.Valid() && Batching(before, d.frame, c, row, col + 1, sx, buf, src) && (move <==> buf == [])
  {
    hide d.Valid;
    sx, move, buf := sx0, move0, buf0;
    if pixel.Some? {
      Collect(before, d.frame, c, row, col, sx, buf, src, pixel.value);
      if move {
        move := false;
        sx := px;
      }
      buf := buf + [pixel.value];
    } else {
      EndRun(d, sx, y, buf, before, c, row, col, src);
      move := true;
      buf := [];
    }
  }

  function Swap16(c: Color): (r: Color) {
    c / 256 + c % 256 * 256
  }

  /** What the panel shows for a 16-bit pixel: the driver swaps its bytes or not. */
  function Displayed(c: Color, swapBytes: bool): (r: Color) {
    if swapBytes then c else Swap16(c)
  }

  /** The two bytes of a colour change places. */
  lemma SwapsBytes(c: Color)
    ensures Le16(Swap16(c)) == [Le16(c)[1], Le16(c)[0]]
  {
    var hi: int, lo: int := c / 256, c % 256;
    assert (hi + lo * 256) / 256 == lo && (hi + lo * 256) % 256 == hi;
  }

  lemma SwapsBack(c: Color)
    ensures Swap16(Swap16(c)) == c
  {
    var hi: int, lo: int := c / 256, c % 256;
    assert (hi + lo * 256) / 256 == lo && (hi + lo * 256) % 256 == hi;
  }

  /** A 16-bit image; the pixels that display as `transp` are transparent. */
  function Source16(data: seq<Color>, w: int, transp: Color, swapBytes: bool): Source {
    (u: int, v: int) =>
      var k := u + v * w;
      if 0 <= k < |data| && Displayed(data[k], swapBytes) != transp then Some(Displayed(data[k], swapBytes)) else None
  }

  method Row16(d: Display, c: Part, row: int, data: seq<Color>, at: nat, stored: Color, swapBytes: bool,
               ghost w: int, ghost transp: Color, ghost before: Frame)
    requires d.Valid() && 0 <= c.x && c.x + c.dw <= d.width && 0 <= c.y && c.y + c.dh <= d.height && 0 <= row < c.dh
    requires at == c.dx + (c.dy + row) * w && at + c.dw <= |data| && 0 <= c.dw
    requires Displayed(stored, swapBytes) == transp
    requires d.frame == Copied(before, c, row, 0, Source16(data, w, transp, swapBytes))
    modifies d`addrCol, d`addrRow, d`window, d`sent, d`frame
    ensures d.Valid() && d.frame == Copied(before, c, row, c.dw, Source16(data, w, transp, swapBytes))
  {
    hide d.Valid, Copied, Displayed;
    ghost var src := Source16(data, w, transp, swapBytes);
    var y := c.y + row;
    var px, sx, move := c.x, c.x, true;
    var buf: seq<Color> := [];
    var k := 0;
    while k < c.dw
      invariant 0 <= k <= c.dw && px == c.x + k && (move <==> buf == [])
      invariant d.Valid() && Batching(before, d.frame, c, row, k, sx, buf, src)
    {
      var pixel := data[at + k];
      SameDisplay(pixel, stored, swapBytes);
      sx, move, buf := Take(d, px, y, sx, move, buf, if stored != pixel then Some(Displayed(pixel, swapBytes)) else None,
                            before, c, row, k, src);
      px := px + 1;
      k := k + 1;
    }
    Flush(d, sx, y, buf, before, c, row, k, src);
  }

  lemma SameDisplay(a: Color, b: Color, swapBytes: bool)
    ensures Displayed(a, swapBytes) == Displayed(b, swapBytes) <==> a == b
  {
    SwapsBack(a);
    SwapsBack(b);
  }

  /** A 16-bit image with a transparent colour. */
  method PushImage16(d: Display, x: int, y: int, w: int, h: int, data: seq<Color>, transp: Color, swapBytes: bool)
    requires d.Valid() && (0 < w && 0 < h ==> w * h <= |data|)
    modifies d`addrCol, d`addrRow, d`window, d`sent, d`frame
    ensures d.Valid() && d.frame == Blit(old(d.frame), d.vp, x, y, w, h, Source16(data, w, transp, swapBytes))
  {
    hide d.CacheOk, d.FrameOk, Copied, Blit, PiClip;
    ghost var src := Source16(data, w, transp, swapBytes);
    CopiedAll(d.frame, d.vp, x, y, w, h, src);
    PartOnScreen(d, x, y, w, h);
    var part := PiClip(d.vp, x, y, w, h);
    if part.None? {
      return;
    }
    var c := part.value;
    var stored := if swapBytes then transp else Swap16(transp);
    SwapsBack(transp);
    CopiedNothing(d.frame, c, src);
    var at, row := c.dx + c.dy * w, 0;
    while row < c.dh
      invariant 0 <= row <= c.dh && at == c.dx + (c.dy + row) * w
      invariant d.Valid() && d.frame == Copied(old(d.frame), c, row, 0, src)
    {
      RowInData(c, row, w, h);
      Row16(d, c, row, data, at, stored, swapBytes, w, transp, old(d.frame));
      CopiedRow(old(d.frame), c, row, src);
      row := row + 1;
      at := at + w;
    }
  }

  lemma PartOnScreen(d: Display, x: int, y: int, w: int, h: int)
    requires d.Valid()
    ensures match PiClip(d.vp, x, y, w, h) case None => true
            case Some(c) => 0 <= c.x && c.x + c.dw <= d.width && 0 <= c.y && c.y + c.dh <= d.height
  {
  }

  lemma RowInData(c: Part, row: int, w: int, h: int)
    requires 0 <= row < c.dh && 0 <= c.dx && c.dx + c.dw <= w && 0 <= c.dy && c.dy + c.dh <= h && c.dw >= 1
    ensures 0 <= c.dx + (c.dy + row) * w && c.dx + (c.dy + row) * w + c.dw <= w * h
    ensures c.dx + (c.dy + row) * w + w == c.dx + (c.dy + row + 1) * w
  {
    CellInGrid(c.dy + row, c.dx, w, h);
    CellInGrid(c.dy + row, c.dx + c.dw - 1, w, h);
    assert (c.dy + row + 1) * w == (c.dy + row) * w + w;
  }

  /** The five blue bits for the two in an 8-bit pixel. */
  function Blue(b: int): (r: int)
    requires 0 <= b < 4
    ensures 0 <= r < 32
  {
    [0, 11, 21, 31][b]
  }

  /** The bytes of the 16-bit colour for an 8-bit pixel of three red, three green and two blue
      bits; the masks and shifts of the source, whose fields do not overlap, as arithmetic. */
  function Msb(color: byte): (r: byte) {
    color / 32 * 32 + color / 64 * 8 + color / 4 % 8
  }

  function Lsb(color: byte): (r: byte) {
    color / 4 % 8 * 32 + Blue(color % 4)
  }

  /** The same colour as one number. */
  function Color8To16(color: byte): (r: Color) {
    color / 32 * 0x2000 + color / 64 * 0x800 + color / 4 % 8 * 0x100 + color / 4 % 8 * 0x20 + Blue(color % 4)
  }

  lemma BytesOfColor(color: byte)
    ensures Msb(color) * 256 + Lsb(color) == Color8To16(color)
  {
  }

  /** The three channels of the colour are those of the 8-bit pixel, scaled up: red to the nearest
      step, green exactly, and blue to the next step. */
  lemma ChannelsScale(r: int, g: int, b: int)
    requires 0 <= r < 8 && 0 <= g < 8 && 0 <= b < 4
    ensures var c: int := Color8To16(32 * r + 4 * g + b);
            var red, green, blue := c / 0x800, c / 0x20 % 0x40, c % 0x20;
            -7 < 2 * (7 * red - 31 * r) < 7 && 7 * green == 63 * g && 0 <= 3 * blue - 31 * b < 3
  {
    var color := 32 * r + 4 * g + b;
    Fields8(r, g, b);
    var red, green, blue := 4 * r + r / 2, 9 * g, Blue(b);
    var c: int := Color8To16(color);
    assert c == 0x800 * red + 0x20 * green + blue;
    Fields16(red, green, blue);
  }

  lemma Fields8(r: int, g: int, b: int)
    requires 0 <= r < 8 && 0 <= g < 8 && 0 <= b < 4
    ensures var c := 32 * r + 4 * g + b; c / 32 == r && c / 64 == r / 2 && c / 4 % 8 == g && c % 4 == b
  {
    var c := 32 * r + 4 * g + b;
    assert c / 32 == r && c / 4 == 8 * r + g;
    assert c / 64 == c / 32 / 2;
  }

  lemma Fields16(red: int, green: int, blue: int)
    requires 0 <= red < 0x20 && 0 <= green < 0x40 && 0 <= blue < 0x20
    ensures var c := 0x800 * red + 0x20 * green + blue; c / 0x800 == red && c / 0x20 % 0x40 == green && c % 0x20 == blue
  {
  }

  function Source8(data: seq<byte>, w: int, transp: byte): Source {
    (u: int, v: int) =>
      var k := u + v * w;
      if 0 <= k < |data| && data[k] != transp then Some(Color8To16(data[k])) else None
  }

  /** The last colour converted; 0xFFFFFFFF stands for none. */
  datatype Memo = Memo(last: int, msb: byte, lsb: byte) {
    ghost predicate Valid() {
      last == 0xFFFF_FFFF || (0 <= last < 256 && msb == Msb(last) && lsb == Lsb(last))
    }
  }

  method Row8(d: Display, c: Part, row: int, data: seq<byte>, at: nat, transp: byte, memo0: Memo, ghost w: int, ghost before: Frame)
    returns (memo: Memo)
    requires d.Valid() && 0 <= c.x && c.x + c.dw <= d.width && 0 <= c.y && c.y + c.dh <= d.height && 0 <= row < c.dh
    requires at == c.dx + (c.dy + row) * w && at + c.dw <= |data| && 0 <= c.dw && memo0.Valid()
    requires d.frame == Copied(before, c, row, 0, Source8(data, w, transp))
    modifies d`addrCol, d`addrRow, d`window, d`sent, d`frame
    ensures d.Valid() && d.frame == Copied(before, c, row, c.dw, Source8(data, w, transp)) && memo.Valid()
  {
    hide d.Valid, Copied, Color8To16, Msb, Lsb;
    ghost var src := Source8(data, w, transp);
    memo := memo0;
    var y := c.y + row;
    var px, sx, move := c.x, c.x, true;
    var buf: seq<Color> := [];
    var k := 0;
    while k < c.dw
      invariant 0 <= k <= c.dw && px == c.x + k && (move <==> buf == []) && memo.Valid()
      invariant d.Valid() && Batching(before, d.frame, c, row, k, sx, buf, src)
    {
      var color := data[at + k];
      var pixel := None;
      if transp != color {
        if color != memo.last {
          memo := Memo(color, Msb(color), Lsb(color));
        }
        BytesOfColor(color);
        pixel := Some(memo.msb * 256 + memo.lsb);
      }
      sx, move, buf := Take(d, px, y, sx, move, buf, pixel, before, c, row, k, src);
      px := px + 1;
      k := k + 1;
    }
    Flush(d, sx, y, buf, before, c, row, k, src);
  }

  /** An 8-bit image with a transparent colour. */
  method PushImage8(d: Display, x: int, y: int, w: int, h: int, data: seq<byte>, transp: byte)
    requires d.Valid() && (0 < w && 0 < h ==> w * h <= |data|)
    modifies d`addrCol, d`addrRow, d`window, d`sent, d`frame
    ensures d.Valid() && d.frame == Blit(old(d.frame), d.vp, x, y, w, h, Source8(data, w, transp))
  {
    hide d.CacheOk, d.FrameOk, Copied, Blit, PiClip, Color8To16;
    ghost var src := Source8(data, w, transp);
    CopiedAll(d.frame, d.vp, x, y, w, h, src);
    PartOnScreen(d, x, y, w, h);
    var part := PiClip(d.vp, x, y, w, h);
    if part.None? {
      return;
    }
    var c := part.value;
    CopiedNothing(d.frame, c, src);
    var memo := Memo(0xFFFF_FFFF, 0, 0);
    var at, row := c.dx + c.dy * w, 0;
    while row < c.dh
      invariant 0 <= row <= c.dh && at == c.dx + (c.dy + row) * w && memo.Valid()
      invariant d.Valid() && d.frame == Copied(old(d.frame), c, row, 0, src)
    {
      RowInData(c, row, w, h);
      memo := Row8(d, c, row, data, at, transp, memo, w, old(d.frame));
      CopiedRow(old(d.frame), c, row, src);
      row := row + 1;
      at := at + w;
    }
  }

  /** The width of a stored row of 4-bit pixels: rounded up to whole bytes. */
  function RowWidth(w: int): (r: int) {
    (w + 1) / 2 * 2
  }

  /** The width that is computed for it, with a mask of 16 bits. */
  function Stride(w: int): (r: int)
    ensures 0 <= r < 0x1_0000 && r % 2 == 0
  {
    (w + 1) % 0x1_0000 / 2 * 2
  }

  /** The mask gives the width of a row exactly below 65535 pixels, which is also exactly when the
      width is large enough. */
  lemma StrideIsRowWidth(w: int)
    requires w > 0
    ensures Stride(w) == RowWidth(w) <==> w < 0xFFFF
    ensures Stride(w) >= w <==> w < 0xFFFF
  {
  }

  /** At 65535 pixels all rows are read from the start of the data. */
  lemma AllRowsAreTheFirst(data: seq<byte>, cmap: seq<Color>, transp: byte, u: int, v: int)
    requires |cmap| == 16
    ensures Stride(0xFFFF) == 0
    ensures Source4(data, Stride(0xFFFF), cmap, transp)(u, v) == Source4(data, Stride(0xFFFF), cmap, transp)(u, 0)
  {
  }

  /** A 4-bit image with a colour table: two pixels a byte, the even one in the high half. */
  function Source4(data: seq<byte>, stride: int, cmap: seq<Color>, transp: byte): Source
    requires |cmap| == 16
  {
    (u: int, v: int) =>
      var k := (u + v * stride) / 2;
      if 0 <= k < |data| then
        var index := if u % 2 == 0 then data[k] / 16 else data[k] % 16;
        if index != transp then Some(cmap[index]) else None
      else None
  }

  /** Row `v` starts at byte `half`. */
  ghost predicate StartsAt(half: int, v: int, stride: int) {
    2 * half == v * stride
  }

  lemma SourceAt(data: seq<byte>, stride: int, cmap: seq<Color>, transp: byte, u: int, v: int, half: int, ptr: int)
    requires |cmap| == 16 && 0 <= ptr < |data| && ptr == half + u / 2 && StartsAt(half, v, stride)
    ensures Source4(data, stride, cmap, transp)(u, v) ==
            var index := if u % 2 == 0 then data[ptr] / 16 else data[ptr] % 16;
            if index != transp then Some(cmap[index]) else None
  {
  }

  /** One half of the byte at `ptr`. */
  method TakeNibble(d: Display, px: int, y: int, sx0: int, move0: bool, buf0: seq<Color>, color: byte, high: bool,
                    cmap: seq<Color>, transp: byte, ghost data: seq<byte>, ghost stride: int, ghost half: int,
                    ghost before: Frame, ghost c: Part, ghost row: int, ghost col: int)
    returns (sx: int, move: bool, buf: seq<Color>)
    requires d.Valid() && 0 <= c.x && c.x + c.dw <= d.width && 0 <= c.y && c.y + c.dh <= d.height && |cmap| == 16
    requires y == c.y + row && px == c.x + col && (move0 <==> buf0 == []) && col < c.dw
    requires Batching(before, d.frame, c, row, col, sx0, buf0, Source4(data, stride, cmap, transp))
    requires StartsAt(half, c.dy + row, stride) && 0 <= half + (c.dx + col) / 2 < |data| && color == data[half + (c.dx + col) / 2]
    requires high <==> (c.dx + col) % 2 == 0
    modifies d`addrCol, d`addrRow, d`window, d`sent, d`frame
    ensures d.Valid() && (move <==> buf == [])
    ensures Batching(before, d.frame, c, row, col + 1, sx, buf, Source4(data, stride, cmap, transp))
  {
    hide d.Valid, Source4, Batching, StartsAt;
    SourceAt(data, stride, cmap, transp, c.dx + col, c.dy + row, half, half + (c.dx + col) / 2);
    var index := if high then color / 16 else color % 16;
    sx, move, buf := Take(d, px, y, sx0, move0, buf0, if index != transp then Some(cmap[index]) else None,
                          before, c, row, col, Source4(data, stride, cmap, transp));
  }

  method Row4(d: Display, c: Part, row: int, data: seq<byte>, at: nat, cmap: seq<Color>, transp: byte,
              ghost stride: int, ghost half: int, ghost before: Frame)
    requires d.Valid() && 0 <= c.x && c.x + c.dw <= d.width && 0 <= c.y && c.y + c.dh <= d.height && 0 <= row < c.dh
    requires |cmap| == 16 && 1 <= c.dw && 0 <= c.dx && 0 <= half && StartsAt(half, c.dy + row, stride)
    requires at == half + c.dx / 2 && half + (c.dx + c.dw - 1) / 2 < |data|
    requires d.frame == Copied(before, c, row, 0, Source4(data, stride, cmap, transp))
    modifies d`addrCol, d`addrRow, d`window, d`sent, d`frame
    ensures d.Valid() && d.frame == Copied(before, c, row, c.dw, Source4(data, stride, cmap, transp))
  {
    hide d.Valid, Copied, Source4, Batching, StartsAt;
    ghost var src := Source4(data, stride, cmap, transp);
    StartRow(before, d.frame, c, row, c.x, src);
    var y := c.y + row;
    var px, sx, move := c.x, c.x, true;
    var buf: seq<Color> := [];
    var ptr, len := at, c.dw;
    if c.dx % 2 != 0 {
      sx, move, buf := TakeNibble(d, px, y, sx, move, buf, data[ptr], false, cmap, transp, data, stride, half, before, c, row, 0);
      px, ptr, len := px + 1, ptr + 1, len - 1;
    }
    while len > 0
      invariant 0 <= len <= c.dw && px == c.x + (c.dw - len) && (move <==> buf == [])
      invariant len > 0 ==> (c.dx + (c.dw - len)) % 2 == 0 && ptr == half + (c.dx + (c.dw - len)) / 2
      invariant d.Valid() && Batching(before, d.frame, c, row, c.dw - len, sx, buf, src)
    {
      var color := data[ptr];
      sx, move, buf := TakeNibble(d, px, y, sx, move, buf, color, true, cmap, transp, data, stride, half, before, c, row, c.dw - len);
      px, len := px + 1, len - 1;
      if len == 0 {
        break;
      }
      sx, move, buf := TakeNibble(d, px, y, sx, move, buf, color, false, cmap, transp, data, stride, half, before, c, row, c.dw - len);
      px, len := px + 1, len - 1;
      ptr := ptr + 1;
    }
    Flush(d, sx, y, buf, before, c, row, c.dw, src);
  }

  lemma EvenRow(row: int, stride: int)
    requires stride % 2 == 0
    ensures row * stride % 2 == 0
  {
    assert row * stride == 2 * (row * (stride / 2));
  }

  /** A 4-bit image with a colour table and a transparent table index. */
  method PushImage4(d: Display, x: int, y: int, w: int, h: int, data: seq<byte>, cmap: seq<Color>, transp: byte)
    requires d.Valid() && |cmap| == 16
    requires 0 < w && 0 < h ==> (h - 1) * Stride(w) + w <= 2 * |data|
    modifies d`addrCol, d`addrRow, d`window, d`sent, d`frame
    ensures d.Valid()
    ensures d.frame == Blit(old(d.frame), d.vp, x, y, w, h, Source4(data, Stride(w), cmap, transp))
  {
    hide d.CacheOk, d.FrameOk, Copied, Blit, PiClip, Source4, Stride;
    PartOnScreen(d, x, y, w, h);
    var part := PiClip(d.vp, x, y, w, h);
    var stride := Stride(w);
    ghost var src := Source4(data, stride, cmap, transp);
    CopiedAll(d.frame, d.vp, x, y, w, h, src);
    if part.None? {
      return;
    }
    var c := part.value;
    CopiedNothing(d.frame, c, src);
    var at, row := (if c.dx % 2 != 0 then c.dx - 1 + c.dy * stride else c.dx + c.dy * stride) / 2, 0;
    ghost var half := c.dy * stride / 2;
    EvenRow(c.dy, stride);
    while row < c.dh
      invariant 0 <= row <= c.dh && at == half + c.dx / 2 && 2 * half == (c.dy + row) * stride
      invariant d.Valid() && d.frame == Copied(old(d.frame), c, row, 0, src)
    {
      RowInNibbles(c, row, w, h, stride, half, |data|);
      Row4(d, c, row, data, at, cmap, transp, stride, half, old(d.frame));
      CopiedRow(old(d.frame), c, row, src);
      row := row + 1;
      at, half := at + stride / 2, half + stride / 2;
    }
  }

  lemma RowInNibbles(c: Part, row: int, w: int, h: int, stride: int, half: int, size: int)
    requires 0 <= row < c.dh && 0 <= c.dx && c.dx + c.dw <= w && 0 <= c.dy && c.dy + c.dh <= h && c.dw >= 1
    requires 0 <= stride && (h - 1) * stride + w <= 2 * size && 2 * half == (c.dy + row) * stride
    ensures 0 <= half && half + (c.dx + c.dw - 1) / 2 < size && 2 * half + stride == (c.dy + row + 1) * stride
  {
    assert 0 <= (c.dy + row) * stride <= (h - 1) * stride;
    assert (c.dy + row + 1) * stride == (c.dy + row) * stride + stride;
  }
}
