/**
 Characters of a run-length encoded font. One of three ways of painting is chosen by
 the colours, the size and the position; all leave the same picture.
 */
module Glyphs {
  import opened Bytes
  import opened Panel
  import opened Tft

  /** One run of the encoding: its top bit is the pixels' state, the rest one less than
      their number. */
  function RunBit(b: byte): bool {
    b >= 128
  }

  function RunLength(b: byte): (n: nat)
    ensures 1 <= n <= 128
  {
    b % 128 + 1
  }

  /** The pixels that an encoding stands for. The drawing methods carry them along for their
      contracts only; what they draw from is the encoding. */
  function Decode(rle: seq<byte>): (bits: seq<bool>)
  {
    if rle == [] then [] else seq(RunLength(rle[0]), _ => RunBit(rle[0])) + Decode(rle[1..])
  }

  /** How many pixels at the start of a bitmap are alike, at most as many as a run can hold. */
  function Alike(bits: seq<bool>, n: nat): (k: nat)
    requires 1 <= n <= |bits| && n <= 128 && forall i :: 0 <= i < n ==> bits[i] == bits[0]
    ensures n <= k <= |bits| && k <= 128 && forall i :: 0 <= i < k ==> bits[i] == bits[0]
    decreases 128 - n
  {
    if n < |bits| && n < 128 && bits[n] == bits[0] then Alike(bits, n + 1) else n
  }

  function RunByte(bit: bool, n: nat): (b: byte)
    requires 1 <= n <= 128
  {
    if bit then 0x80 + (n - 1) else n - 1
  }

  /** The encoding of a bitmap: each run of up to 128 like pixels is one byte, one less than their
      number, with the top bit for pixels that are set. */
  function EncodeRuns(bits: seq<bool>): (rle: seq<byte>)
    decreases |bits|
  {
    if bits == [] then [] else var n := Alike(bits, 1); [RunByte(bits[0], n)] + EncodeRuns(bits[n..])
  }

  lemma DecodeRun(bit: bool, n: nat, rest: seq<byte>)
    requires 1 <= n <= 128
    ensures Decode([RunByte(bit, n)] + rest) == seq(n, _ => bit) + Decode(rest)
  {
    var b := RunByte(bit, n);
    assert RunLength(b) == n && RunBit(b) == bit;
    assert ([b] + rest)[1..] == rest;
  }

  lemma {:induction false} RunsRoundTrip(bits: seq<bool>)
    ensures Decode(EncodeRuns(bits)) == bits
    decreases |bits|
  {
    hide Decode, RunByte, Alike;
    if bits == [] {
      DecodeNothing();
    } else {
      var n := Alike(bits, 1);
      RunsRoundTrip(bits[n..]);
      DecodeRun(bits[0], n, EncodeRuns(bits[n..]));
      LikePixels(bits, n);
    }
  }

  lemma LikePixels(bits: seq<bool>, n: nat)
    requires 1 <= n <= |bits| && forall i :: 0 <= i < n ==> bits[i] == bits[0]
    ensures seq(n, _ => bits[0]) + bits[n..] == bits
  {
  }

  lemma DecodeNothing()
    ensures Decode([]) == []
  {
  }

  lemma DivRange(a: int, ts: int, c: int, n: int)
    requires ts > 0
    ensures c * ts <= a < (c + n) * ts <==> c <= a / ts < c + n
  {
    DivBound(a, ts, c);
    DivBound(a, ts, c + n);
  }

  lemma DivBound(a: int, ts: int, c: int)
    requires ts > 0
    ensures c * ts <= a <==> c <= a / ts
  {
    var q: int, r: int := a / ts, a % ts;
    assert a == q * ts + r;
    var e := q - c;
    assert e * ts == q * ts - c * ts;
    assert e >= 0 ==> e * ts >= 0;
    assert e <= -1 ==> e * ts <= -1 * ts;
  }

  /** A character cell at (x, y) whose pixels are squares of side `ts`. */
  datatype Glyph = Glyph(x: int, y: int, width: int, height: int, ts: int, bits: seq<bool>) {
    ghost predicate Valid() {
      width >= 0 && height >= 0 && ts >= 1 && |bits| == width * height
    }

    ghost function Box(): iset<Pt> {
      Rect(x, y, width * ts, height * ts)
    }

    /** Which pixel of the character covers the point `p`. */
    ghost function Cell(p: Pt): int
      requires ts >= 1
    {
      (p.y - y) / ts * width + (p.x - x) / ts
    }

    /** The points of `n` consecutive pixels of the character, from the `k`-th on. */
    ghost function Cells(k: int, n: int): iset<Pt>
      requires ts >= 1
    {
      iset p: Pt | p in Box() && k <= Cell(p) < k + n
    }

    /** A piece of one row of the character is a rectangle. */
    lemma RowPiece(row: int, col: int, n: int)
      requires Valid() && 0 <= row < height && 0 <= col && 0 <= n && col + n <= width
      ensures Rect(x + ts * col, y + ts * row, n * ts, ts) == Cells(row * width + col, n)
    {
      hide Cell;
      var r := Rect(x + ts * col, y + ts * row, n * ts, ts);
      forall p: Pt ensures p in r <==> p in Cells(row * width + col, n) {
        PieceHas(row, col, n, p);
      }
    }

    lemma PieceHas(row: int, col: int, n: int, p: Pt)
      requires Valid() && 0 <= row < height && 0 <= col && 0 <= n && col + n <= width
      ensures p in Rect(x + ts * col, y + ts * row, n * ts, ts) <==>
              p in Box() && row * width + col <= Cell(p) < row * width + col + n
    {
      var a, b := p.x - x, p.y - y;
      DivRange(a, ts, col, n);
      DivRange(b, ts, row, 1);
      DivRange(a, ts, 0, width);
      DivRange(b, ts, 0, height);
      assert (col + n) * ts == ts * col + n * ts && col * ts == ts * col;
      assert (row + 1) * ts == ts * row + ts && row * ts == ts * row;
      assert p in Box() <==> 0 <= a / ts < width && 0 <= b / ts < height;
      SameRow(b / ts, a / ts, row, col, n, width);
    }
  }

  /** Cells numbered row by row: a stretch within one row. */
  lemma SameRow(r: int, c: int, row: int, col: int, n: int, width: int)
    requires 0 <= col && col + n <= width
    ensures 0 <= c < width && row * width + col <= r * width + c < row * width + col + n <==>
            r == row && col <= c < col + n
  {
    if 0 <= c < width && row * width + col <= r * width + c < row * width + col + n {
      var d := r - row;
      assert d * width == r * width - row * width;
      assert d >= 1 ==> d * width >= width;
      assert d <= -1 ==> d * width <= -1 * width;
    }
  }

  /** The picture with the first `n` pixels of the character painted: set pixels in the
      text colour, the others in the background colour unless the two are the same. */
  ghost function Shown(f: Frame, v: Viewport, g: Glyph, n: nat, fg: Color, bg: Color): (r: Frame)
    requires g.Valid() && n <= |g.bits|
    ensures r.Keys == f.Keys
  {
    map p | p in f ::
      if p in v.Seen(g.Cells(0, n)) then
        if g.bits[g.Cell(Pt(p.x - v.xDatum, p.y - v.yDatum))] then fg else if fg != bg then bg else f[p]
      else f[p]
  }

  ghost predicate Uniform(g: Glyph, k: nat, n: nat, b: bool) {
    k + n <= |g.bits| && forall i :: k <= i < k + n ==> g.bits[i] == b
  }

  /** Painting some more pixels of equal state. */
  lemma ShownGrows(f: Frame, v: Viewport, g: Glyph, k: nat, n: nat, b: bool, fg: Color, bg: Color)
    requires g.Valid() && Uniform(g, k, n, b)
    ensures b || fg != bg ==>
              Painted(Shown(f, v, g, k, fg, bg), v.Seen(g.Cells(k, n)), if b then fg else bg) == Shown(f, v, g, k + n, fg, bg)
    ensures !b && fg == bg ==> Shown(f, v, g, k, fg, bg) == Shown(f, v, g, k + n, fg, bg)
  {
    hide g.Cell;
  }

  lemma ShownNothing(f: Frame, v: Viewport, g: Glyph, fg: Color, bg: Color)
    requires g.Valid()
    ensures Shown(f, v, g, 0, fg, bg) == f
  {
    hide g.Cell;
  }

  lemma DecodeFirst(bits: seq<bool>, pc: nat, rle: seq<byte>, i: nat)
    requires pc < |bits| && i <= |rle| && bits[pc..] == Decode(rle[i..])
    ensures i < |rle| && pc + RunLength(rle[i]) <= |bits|
    ensures forall j :: pc <= j < pc + RunLength(rle[i]) ==> bits[j] == RunBit(rle[i])
    ensures bits[pc + RunLength(rle[i])..] == Decode(rle[i + 1..])
  {
    var n := RunLength(rle[i]);
    assert rle[i..][1..] == rle[i + 1..];
    var tail := Decode(rle[i..]);
    assert |tail| == |bits| - pc;
    forall j | pc <= j < pc + n ensures bits[j] == RunBit(rle[i]) {
      assert bits[j] == bits[pc..][j - pc];
    }
    assert bits[pc + n..] == bits[pc..][n..];
  }

  /** A piece of one row, clipped. */
  method PaintPiece(d: Display, tx: int, ty: int, w: int, h: int, pf: bool, pcol: Color,
                    ghost g: Glyph, ghost row: nat, ghost col: nat, ghost n: nat, ghost b: bool,
                    ghost fg: Color, ghost bg: Color, ghost before: Frame)
    requires d.Valid() && g.Valid() && row < g.height && col + n <= g.width
    requires tx == g.x + g.ts * col && ty == g.y + g.ts * row && w == n * g.ts && h == g.ts
    requires Uniform(g, row * g.width + col, n, b) && pcol == (if b then fg else bg) && (pf <==> b || fg != bg)
    requires d.frame == Shown(before, d.vp, g, row * g.width + col, fg, bg)
    modifies d`addrCol, d`addrRow, d`window, d`sent, d`frame
    ensures d.Valid() && d.frame == Shown(before, d.vp, g, row * g.width + col + n, fg, bg)
  {
    hide d.Valid, Shown, Painted, d.vp.Seen, g.Cells, Rect, Uniform;
    ShownGrows(before, d.vp, g, row * g.width + col, n, b, fg, bg);
    g.RowPiece(row, col, n);
    if pf {
      d.FillRect(tx, ty, w, h, pcol);
    }
  }

  /** A run of the general path: cut where a row of the character ends. */
  method PaintRun(d: Display, g: Glyph, pc: nat, len: nat, pf: bool, pcol: Color,
                  ghost b: bool, ghost fg: Color, ghost bg: Color, ghost before: Frame)
    requires d.Valid() && g.Valid() && g.width > 0 && len > 0
    requires Uniform(g, pc, len, b) && pcol == (if b then fg else bg) && (pf <==> b || fg != bg)
    requires d.frame == Shown(before, d.vp, g, pc, fg, bg)
    modifies d`addrCol, d`addrRow, d`window, d`sent, d`frame
    ensures d.Valid() && d.frame == Shown(before, d.vp, g, pc + len, fg, bg)
  {
    hide d.Valid, Shown;
    var px, py := pc % g.width, pc / g.width;
    var tx, ty := g.x + g.ts * px, g.y + g.ts * py;
    var pl, line := 0, len;
    while line > 0
      invariant 0 <= line <= len && 0 <= px && 0 <= py && 0 <= pl && px + pl < g.width
      invariant pc + len - line == py * g.width + px + pl && pc <= py * g.width + px
      invariant tx == g.x + g.ts * px && ty == g.y + g.ts * py
      invariant d.Valid() && d.frame == Shown(before, d.vp, g, py * g.width + px, fg, bg)
    {
      line := line - 1;
      pl := pl + 1;
      if px + pl >= g.width {
        RowInGrid(py, g.width, g.height);
        PaintPiece(d, tx, ty, pl * g.ts, g.ts, pf, pcol, g, py, px, pl, b, fg, bg, before);
        NextRow(py, g.width, g.ts);
        pl := 0;
        px := 0;
        tx := g.x;
        py := py + 1;
        ty := ty + g.ts;
      }
    }
    if pl > 0 {
      RowInGrid(py, g.width, g.height);
      PaintPiece(d, tx, ty, pl * g.ts, g.ts, pf, pcol, g, py, px, pl, b, fg, bg, before);
    }
  }

  lemma NextRow(row: int, width: int, ts: int)
    ensures (row + 1) * width == row * width + width && ts * (row + 1) == ts * row + ts
  {
  }

  /** The general path: pieces of rows, each clipped. */
  method DrawClipped(d: Display, g: Glyph, rle: seq<byte>, fg: Color, bg: Color)
    requires d.Valid() && g.Valid() && g.bits == Decode(rle)
    modifies d`addrCol, d`addrRow, d`window, d`sent, d`frame
    ensures d.Valid() && d.frame == Shown(old(d.frame), d.vp, g, |g.bits|, fg, bg)
  {
    hide d.Valid, Shown, Decode, RunBit;
    var w := g.width * g.height;
    var pc, i, pf := 0, 0, true;
    ShownNothing(d.frame, d.vp, g, fg, bg);
    assert g.bits[0..] == Decode(rle[0..]) by { assert rle[0..] == rle && g.bits[0..] == g.bits; }
    while pc < w
      invariant 0 <= pc <= w && 0 <= i <= |rle| && g.bits[pc..] == Decode(rle[i..])
      invariant fg != bg ==> pf
      invariant d.Valid() && d.frame == Shown(old(d.frame), d.vp, g, pc, fg, bg)
    {
      DecodeFirst(g.bits, pc, rle, i);
      var line := rle[i];
      i := i + 1;
      var pcol;
      if RunBit(line) {
        pcol := fg;
        pf := true;
      } else {
        pcol := bg;
        if fg == bg {
          pf := false;
        }
      }
      PaintRun(d, g, pc, RunLength(line), pf, pcol, RunBit(line), fg, bg, old(d.frame));
      pc := pc + RunLength(line);
    }
  }

  /** The whole character shows. */
  ghost predicate Inside(v: Viewport, g: Glyph) {
    && !v.oob
    && v.x <= g.x + v.xDatum && g.x + v.xDatum + g.width * g.ts <= v.w
    && v.y <= g.y + v.yDatum && g.y + v.yDatum + g.height * g.ts <= v.h
  }

  /** At size one the panel's window counts pixels as the character does. */
  lemma StretchIsCells(v: Viewport, g: Glyph, k: int, n: int)
    requires g.Valid() && Inside(v, g) && g.ts == 1
    ensures var xd, yd := g.x + v.xDatum, g.y + v.yDatum;
            Window(xd, yd, xd + g.width - 1, yd + g.height - 1).Stretch(k, n) == v.Seen(g.Cells(k, n))
  {
    var xd, yd := g.x + v.xDatum, g.y + v.yDatum;
    var w := Window(xd, yd, xd + g.width - 1, yd + g.height - 1);
    assert g.width * g.ts == g.width && g.height * g.ts == g.height;
    forall p: Pt ensures p in w.Stretch(k, n) <==> p in v.Seen(g.Cells(k, n)) {
      var u := Pt(p.x - v.xDatum, p.y - v.yDatum);
      assert p in w.Points() <==> u in g.Box();
      assert w.Index(p) == g.Cell(u);
    }
  }

  /** The opaque path: one window for the character, filled run by run. */
  method DrawOpaque(d: Display, g: Glyph, rle: seq<byte>, fg: Color, bg: Color)
    requires d.Valid() && g.Valid() && g.bits == Decode(rle)
    requires fg != bg && g.ts == 1 && Inside(d.vp, g)
    modifies d`addrCol, d`addrRow, d`window, d`sent, d`frame
    ensures d.Valid() && d.frame == Shown(old(d.frame), d.vp, g, |g.bits|, fg, bg)
  {
    hide d.FrameOk, d.CacheOk, Shown, Decode, RunBit, Painted, d.vp.Seen, g.Cells;
    var xd, yd := g.x + d.vp.xDatum, g.y + d.vp.yDatum;
    d.SetWindow(xd, yd, xd + g.width - 1, yd + g.height - 1);
    var w, i := g.width * g.height, 0;
    ShownNothing(d.frame, d.vp, g, fg, bg);
    assert g.bits[0..] == Decode(rle[0..]) by { assert rle[0..] == rle && g.bits[0..] == g.bits; }
    while w > 0
      invariant 0 <= w <= |g.bits| && 0 <= i <= |rle| && g.bits[|g.bits| - w..] == Decode(rle[i..])
      invariant d.window == Window(xd, yd, xd + g.width - 1, yd + g.height - 1) && d.sent == |g.bits| - w
      invariant d.Valid() && d.frame == Shown(old(d.frame), d.vp, g, |g.bits| - w, fg, bg)
    {
      DecodeFirst(g.bits, |g.bits| - w, rle, i);
      var line := rle[i];
      i := i + 1;
      var n := RunLength(line);
      ShownGrows(old(d.frame), d.vp, g, |g.bits| - w, n, RunBit(line), fg, bg);
      StretchIsCells(d.vp, g, |g.bits| - w, n);
      w := w - n;
      if RunBit(line) {
        d.PushBlock(fg, n);
      } else {
        d.PushBlock(bg, n);
      }
    }
  }

  lemma SeenInside(v: Viewport, x: int, y: int, w: int, h: int)
    requires !v.oob && v.x <= x + v.xDatum && x + v.xDatum + w <= v.w && v.y <= y + v.yDatum && y + v.yDatum + h <= v.h
    ensures v.Seen(Rect(x, y, w, h)) == Rect(x + v.xDatum, y + v.yDatum, w, h)
  {
  }

  /** One pixel of a character that shows as a whole: a small window of its own. */
  method PaintCell(d: Display, px: int, py: int, side: int, fg: Color, ghost g: Glyph, ghost k: nat, ghost before: Frame)
    requires d.Valid() && g.Valid() && Inside(d.vp, g) && k < |g.bits| && g.bits[k] && side == g.ts && g.width > 0
    requires px == g.x + d.vp.xDatum + g.ts * (k % g.width) && py == g.y + d.vp.yDatum + g.ts * (k / g.width)
    requires d.frame == Shown(before, d.vp, g, k, fg, fg)
    modifies d`addrCol, d`addrRow, d`window, d`sent, d`frame
    ensures d.Valid() && d.frame == Shown(before, d.vp, g, k + 1, fg, fg)
  {
    hide d.FrameOk, d.CacheOk, Shown, Painted, d.vp.Seen, g.Cells, Rect, Inside;
    ShownGrows(before, d.vp, g, k, 1, true, fg, fg);
    CellWindow(d.vp, g, k / g.width, k % g.width);
    d.FillWindow(px, py, side, side, fg);
  }

  lemma CellWindow(v: Viewport, g: Glyph, row: nat, col: nat)
    requires g.Valid() && Inside(v, g) && col < g.width && row * g.width + col < |g.bits|
    ensures var px, py := g.x + v.xDatum + g.ts * col, g.y + v.yDatum + g.ts * row;
            && v.Seen(g.Cells(row * g.width + col, 1)) == Rect(px, py, g.ts, g.ts)
            && !v.oob && v.x <= px && px + g.ts <= v.w && v.y <= py && py + g.ts <= v.h
  {
    hide v.Seen, g.Cells, Rect;
    RowInGrid(row, g.width, g.height);
    g.RowPiece(row, col, 1);
    Corner(col, g.width, g.ts);
    Corner(row, g.height, g.ts);
    SeenInside(v, g.x + g.ts * col, g.y + g.ts * row, g.ts, g.ts);
  }

  lemma Corner(c: int, n: int, ts: int)
    requires 0 <= c < n && ts >= 1
    ensures 0 <= ts * c && ts * c + ts <= n * ts
  {
    assert (c + 1) * ts <= n * ts;
  }

  /** The transparent path: a small window for each set pixel. */
  method DrawTransparent(d: Display, g: Glyph, rle: seq<byte>, fg: Color)
    requires d.Valid() && g.Valid() && g.bits == Decode(rle) && Inside(d.vp, g)
    modifies d`addrCol, d`addrRow, d`window, d`sent, d`frame
    ensures d.Valid() && d.frame == Shown(old(d.frame), d.vp, g, |g.bits|, fg, fg)
  {
    hide d.Valid, Shown, Decode, RunBit;
    var w := g.width * g.height;
    var pc, i := 0, 0;
    ShownNothing(d.frame, d.vp, g, fg, fg);
    assert g.bits[0..] == Decode(rle[0..]) by { assert rle[0..] == rle && g.bits[0..] == g.bits; }
    while pc < w
      invariant 0 <= pc <= w && 0 <= i <= |rle| && g.bits[pc..] == Decode(rle[i..])
      invariant d.Valid() && d.frame == Shown(old(d.frame), d.vp, g, pc, fg, fg)
    {
      DecodeFirst(g.bits, pc, rle, i);
      var line := rle[i];
      i := i + 1;
      if RunBit(line) {
        PaintCells(d, g, pc, RunLength(line), fg, old(d.frame));
      } else {
        ShownGrows(old(d.frame), d.vp, g, pc, RunLength(line), false, fg, fg);
      }
      pc := pc + RunLength(line);
    }
  }

  method PaintCells(d: Display, g: Glyph, pc: nat, len: nat, fg: Color, ghost before: Frame)
    requires d.Valid() && g.Valid() && Inside(d.vp, g) && g.width > 0 && Uniform(g, pc, len, true)
    requires d.frame == Shown(before, d.vp, g, pc, fg, fg)
    modifies d`addrCol, d`addrRow, d`window, d`sent, d`frame
    ensures d.Valid() && d.frame == Shown(before, d.vp, g, pc + len, fg, fg)
  {
    hide d.Valid, Shown, Inside;
    var xd, yd := g.x + d.vp.xDatum, g.y + d.vp.yDatum;
    var px, py, line := xd + g.ts * (pc % g.width), yd + g.ts * (pc / g.width), len;
    while line > 0
      invariant 0 <= line <= len
      invariant var k := pc + len - line; px == xd + g.ts * (k % g.width) && py == yd + g.ts * (k / g.width)
      invariant d.Valid() && d.frame == Shown(before, d.vp, g, pc + len - line, fg, fg)
    {
      ghost var k := pc + len - line;
      line := line - 1;
      PaintCell(d, px, py, g.ts, fg, g, k, before);
      NextCell(k, g.width, g.ts);
      px := px + g.ts;
      if px >= xd + g.width * g.ts {
        px := xd;
        py := py + g.ts;
      }
    }
  }

  lemma NextCell(k: nat, width: int, ts: int)
    requires width > 0 && ts >= 1
    ensures ts * (k % width) + ts >= width * ts ==> (k + 1) % width == 0 && ts * ((k + 1) / width) == ts * (k / width) + ts
    ensures ts * (k % width) + ts < width * ts ==>
              ts * ((k + 1) % width) == ts * (k % width) + ts && (k + 1) / width == k / width
  {
    var q, r := k / width, k % width;
    assert ts * r + ts == (r + 1) * ts;
    if r + 1 == width {
      EuclidUnique(k + 1, width, q + 1, 0);
      assert (q + 1) * width == q * width + width;
      assert ts * (q + 1) == ts * q + ts;
    } else {
      EuclidUnique(k + 1, width, q, r + 1);
      assert (r + 1) * ts < width * ts;
    }
  }

  /** Nothing of the character shows. */
  lemma ShownOutside(f: Frame, v: Viewport, g: Glyph, fg: Color, bg: Color)
    requires g.Valid()
    requires v.oob || g.x + v.xDatum + g.width * g.ts < v.x || v.w <= g.x + v.xDatum
    ensures Shown(f, v, g, |g.bits|, fg, bg) == f
  {
    hide g.Cell;
    assert v.Seen(g.Cells(0, |g.bits|)) == iset{};
  }

  /** Draws a character; whichever way is taken, the picture is the decoded character, scaled
      and clipped. */
  method DrawChar(d: Display, x: int, y: int, width: nat, height: nat, rle: seq<byte>, textsize: nat, fg: Color, bg: Color)
    returns (advance: int)
    requires d.Valid() && 1 <= textsize <= 7 && |Decode(rle)| == width * height
    modifies d`addrCol, d`addrRow, d`window, d`sent, d`frame
    ensures d.Valid() && advance == if d.vp.oob then 0 else width * textsize
    ensures d.frame == Shown(old(d.frame), d.vp, Glyph(x, y, width, height, textsize, Decode(rle)), width * height, fg, bg)
  {
    hide d.FrameOk, d.CacheOk, Shown, Decode;
    var g := Glyph(x, y, width, height, textsize, Decode(rle));
    if d.vp.oob {
      ShownOutside(d.frame, d.vp, g, fg, bg);
      return 0;
    }
    advance := width * textsize;
    var xd, yd := x + d.vp.xDatum, y + d.vp.yDatum;
    var v := d.vp;
    if (xd + width * textsize < v.x || xd >= v.w) && (yd + height * textsize < v.y || yd >= v.h) {
      ShownOutside(d.frame, d.vp, g, fg, bg);
      return;
    }
    var clip := xd < v.x || xd + width * textsize >= v.w || yd < v.y || yd + height * textsize >= v.h;
    if fg == bg && !clip {
      DrawTransparent(d, g, rle, fg);
    } else if fg != bg && textsize == 1 && !clip {
      DrawOpaque(d, g, rle, fg, bg);
    } else {
      DrawClipped(d, g, rle, fg, bg);
    }
  }
}
