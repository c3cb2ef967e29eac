/**
 The display: its viewport, the window commands it sends to the panel, and the basic
 shapes. Every drawing method states which picture it leaves behind.
 */
module Tft {
  import opened Panel

  /** The cached address of no pixel. */
  const NO_ADDR: int := 0xFFFF

  function Max(a: int, b: int): int {
    if a < b then b else a
  }

  function Min(a: int, b: int): int {
    if a < b then a else b
  }

  /** The clip box, with its right and bottom edges exclusive, and where the caller's
      coordinates start. */
  datatype Viewport = Viewport(xDatum: int, yDatum: int, x: int, y: int, w: int, h: int, oob: bool) {
    /** The clip box is off the screen, or a non-empty box inside it. */
    ghost predicate Ok(width: int, height: int) {
      oob || (0 <= x < w <= width && 0 <= y < h <= height)
    }

    ghost function Clip(): iset<Pt> {
      if oob then iset{} else Rect(x, y, w - x, h - y)
    }

    /** The pixels of the screen on which a shape, given in the caller's coordinates, shows. */
    ghost function Seen(s: iset<Pt>): iset<Pt> {
      iset p: Pt | p in Clip() && Pt(p.x - xDatum, p.y - yDatum) in s
    }

    lemma SeenUnion(a: iset<Pt>, b: iset<Pt>)
      ensures Seen(a + b) == Seen(a) + Seen(b)
    {
    }
  }

  /** The viewport for a rectangle: the part of it that is on the screen, if there is one. */
  function ViewOf(width: int, height: int, x: int, y: int, w: int, h: int, useDatum: bool): (v: Viewport) {
    var l, t, r, b := Max(x, 0), Max(y, 0), Min(x + w, width), Min(y + h, height);
    if l < r && t < b then Viewport(if useDatum then x else 0, if useDatum then y else 0, l, t, r, b, false)
    else Viewport(0, 0, 0, 0, width, height, true)
  }

  lemma BoxOnScreen(width: int, height: int, x0: int, y0: int, w0: int, h0: int, x: int, y: int, w: int, h: int)
    requires x == Max(x0, 0) && x + w == Min(x0 + w0, width)
    requires y == Max(y0, 0) && y + h == Min(y0 + h0, height)
    ensures Rect(x, y, w, h) == Rect(0, 0, width, height) * Rect(x0, y0, w0, h0)
    ensures w >= 1 && h >= 1 <==> Rect(x, y, w, h) != iset{}
  {
    assert w >= 1 && h >= 1 ==> Pt(x, y) in Rect(x, y, w, h);
  }

  class Display {
    const width: int
    const height: int
    var vp: Viewport

    // the panel: its window, how many pixels were sent into it, and what it shows
    var window: Window
    var sent: nat
    var frame: Frame

    // the column and row last sent for a single pixel
    var addrCol: int
    var addrRow: int

    ghost function Screen(): iset<Pt> {
      Rect(0, 0, width, height)
    }

    /** A cached address is the panel's one-pixel window. */
    ghost predicate CacheOk()
      reads this`addrCol, this`addrRow, this`window
    {
      && (addrCol != NO_ADDR ==> window.x0 == window.x1 == addrCol)
      && (addrRow != NO_ADDR ==> window.y0 == window.y1 == addrRow)
    }

    ghost predicate FrameOk()
      reads this`frame
    {
      forall p :: p in frame <==> p in Screen()
    }

    ghost predicate Valid()
      reads this`vp, this`addrCol, this`addrRow, this`window, this`frame
    {
      && 0 < width < NO_ADDR && 0 < height < NO_ADDR
      && vp.Ok(width, height) && CacheOk() && FrameOk()
    }

    constructor (width: int, height: int, frame: Frame, window: Window)
      requires 0 < width < NO_ADDR && 0 < height < NO_ADDR
      requires forall p :: p in frame <==> p in Rect(0, 0, width, height)
      ensures Valid() && this.width == width && this.height == height && this.frame == frame
      ensures vp.Clip() == Screen() && vp.xDatum == vp.yDatum == 0
    {
      this.width, this.height, this.frame, this.window := width, height, frame, window;
      sent, addrRow, addrCol := 0, NO_ADDR, NO_ADDR;
      vp := Viewport(0, 0, 0, 0, width, height, false);
    }

    method SetViewport(x0: int, y0: int, w0: int, h0: int, useDatum: bool)
      requires Valid()
      modifies this`vp
      ensures Valid() && vp == ViewOf(width, height, x0, y0, w0, h0, useDatum)
      ensures vp.Clip() == Screen() * Rect(x0, y0, w0, h0)
      ensures vp.oob <==> vp.Clip() == iset{}
      ensures vp.xDatum == (if vp.oob || !useDatum then 0 else x0) && vp.yDatum == (if vp.oob || !useDatum then 0 else y0)
    {
      hide Rect;
      var x, y, w, h := x0, y0, w0, h0;
      var v := Viewport(x, y, 0, 0, width, height, false);
      if x < 0 { w := w + x; x := 0; }
      if y < 0 { h := h + y; y := 0; }
      if x + w > width { w := width - x; }
      if y + h > height { h := height - y; }
      BoxOnScreen(width, height, x0, y0, w0, h0, x, y, w, h);
      if w < 1 || h < 1 {
        vp := v.(xDatum := 0, yDatum := 0, oob := true);
        return;
      }
      if !useDatum {
        v := v.(xDatum := 0, yDatum := 0);
      }
      vp := v.(x := x, y := y, w := x + w, h := y + h);
    }

    method ResetViewport()
      requires Valid()
      modifies this`vp
      ensures Valid() && vp == ViewOf(width, height, 0, 0, width, height, true)
      ensures vp.Clip() == Screen() && vp.xDatum == vp.yDatum == 0
    {
      vp := Viewport(0, 0, 0, 0, width, height, false);
    }

    method SetOrigin(x: int, y: int)
      requires Valid()
      modifies this`vp
      ensures Valid() && vp == old(vp).(xDatum := x, yDatum := y)
    {
      vp := vp.(xDatum := x, yDatum := y);
    }

    /** Opens a window for a stream of pixels. */
    method SetWindow(x0: int, y0: int, x1: int, y1: int)
      requires Valid()
      modifies this`addrCol, this`addrRow, this`window, this`sent
      ensures Valid() && window == Window(x0, y0, x1, y1) && sent == 0
    {
      addrRow, addrCol := NO_ADDR, NO_ADDR;
      window := window.(x0 := x0, x1 := x1);
      window := window.(y0 := y0, y1 := y1);
      sent := 0;
    }

    /** The panel takes one pixel of the stream. */
    method PushColor(c: Color)
      requires Valid() && window.Valid() && sent < window.Area() && window.Points() <= Screen()
      modifies this`frame, this`sent
      ensures Valid() && sent == old(sent) + 1
      ensures frame == Painted(old(frame), iset{window.At(old(sent))}, c)
    {
      window.AtInside(sent);
      frame := frame[window.At(sent) := c];
      sent := sent + 1;
    }

    /** The same colour for the next `n` pixels of the stream. */
    method PushBlock(c: Color, n: nat)
      requires Valid() && window.Valid() && sent + n <= window.Area() && window.Points() <= Screen()
      modifies this`frame, this`sent
      ensures Valid() && sent == old(sent) + n
      ensures frame == Painted(old(frame), window.Stretch(old(sent), n), c)
    {
      hide Valid, Painted, window.At, window.Area;
      var k := 0;
      assert window.Stretch(sent, 0) == iset{};
      PaintNothing(frame, c);
      while k < n
        invariant 0 <= k <= n && sent == old(sent) + k
        invariant Valid()
        invariant frame == Painted(old(frame), window.Stretch(old(sent), k), c)
      {
        window.StretchGrows(old(sent), k);
        PaintUnion(old(frame), window.Stretch(old(sent), k), iset{window.At(sent)}, c);
        PushColor(c);
        k := k + 1;
      }
    }

    /** A single pixel; a column or row that the panel still has is not sent again. */
    method DrawPixel(x0: int, y0: int, c: Color)
      requires Valid()
      modifies this`addrCol, this`addrRow, this`window, this`sent, this`frame
      ensures Valid()
      ensures frame == Painted(old(frame), vp.Seen(iset{Pt(x0, y0)}), c)
    {
      hide FrameOk, Painted;
      PaintNothing(frame, c);
      ghost var seen := vp.Seen(iset{Pt(x0, y0)});
      if vp.oob {
        assert seen == iset{};
        return;
      }
      var x, y := x0 + vp.xDatum, y0 + vp.yDatum;
      if x < vp.x || y < vp.y || x >= vp.w || y >= vp.h {
        assert seen == iset{};
        return;
      }
      assert seen == iset{Pt(x, y)};
      if addrCol != x {
        window := window.(x0 := x, x1 := x);
        addrCol := x;
      }
      if addrRow != y {
        window := window.(y0 := y, y1 := y);
        addrRow := y;
      }
      sent := 0;
      assert window == Window(x, y, x, y);
      PushColor(c);
    }

    /** A window inside the screen, opened and filled with one colour. */
    method FillWindow(x: int, y: int, w: int, h: int, c: Color)
      requires Valid() && 0 <= x && x + w <= width && 0 <= y && y + h <= height && w >= 1 && h >= 1
      modifies this`addrCol, this`addrRow, this`window, this`sent, this`frame
      ensures Valid()
      ensures frame == Painted(old(frame), Rect(x, y, w, h), c)
    {
      hide FrameOk, Painted, CacheOk;
      SetWindow(x, y, x + w - 1, y + h - 1);
      window.WholeWindow();
      assert w * h >= 0;
      PushBlock(c, w * h);
    }

    method FillRect(x0: int, y0: int, w0: int, h0: int, c: Color)
      requires Valid()
      modifies this`addrCol, this`addrRow, this`window, this`sent, this`frame
      ensures Valid()
      ensures frame == Painted(old(frame), vp.Seen(Rect(x0, y0, w0, h0)), c)
    {
      hide FrameOk, CacheOk, Painted;
      PaintNothing(frame, c);
      if vp.oob {
        assert vp.Seen(Rect(x0, y0, w0, h0)) == iset{};
        return;
      }
      var x, y, w, h := x0 + vp.xDatum, y0 + vp.yDatum, w0, h0;
      if x >= vp.w || y >= vp.h {
        assert vp.Seen(Rect(x0, y0, w0, h0)) == iset{};
        return;
      }
      if x < vp.x { w := w + (x - vp.x); x := vp.x; }
      if y < vp.y { h := h + (y - vp.y); y := vp.y; }
      if x + w > vp.w { w := vp.w - x; }
      if y + h > vp.h { h := vp.h - y; }
      if w < 1 || h < 1 {
        assert vp.Seen(Rect(x0, y0, w0, h0)) == iset{};
        return;
      }
      assert vp.Seen(Rect(x0, y0, w0, h0)) == Rect(x, y, w, h);
      FillWindow(x, y, w, h, c);
    }

    method DrawFastHLine(x0: int, y0: int, w0: int, c: Color)
      requires Valid()
      modifies this`addrCol, this`addrRow, this`window, this`sent, this`frame
      ensures Valid()
      ensures frame == Painted(old(frame), vp.Seen(Rect(x0, y0, w0, 1)), c)
    {
      hide FrameOk, CacheOk, Painted;
      PaintNothing(frame, c);
      if vp.oob {
        assert vp.Seen(Rect(x0, y0, w0, 1)) == iset{};
        return;
      }
      var x, y, w := x0 + vp.xDatum, y0 + vp.yDatum, w0;
      if y < vp.y || x >= vp.w || y >= vp.h {
        assert vp.Seen(Rect(x0, y0, w0, 1)) == iset{};
        return;
      }
      if x < vp.x { w := w + (x - vp.x); x := vp.x; }
      if x + w > vp.w { w := vp.w - x; }
      if w < 1 {
        assert vp.Seen(Rect(x0, y0, w0, 1)) == iset{};
        return;
      }
      assert vp.Seen(Rect(x0, y0, w0, 1)) == Rect(x, y, w, 1);
      FillWindow(x, y, w, 1, c);
    }

    method DrawFastVLine(x0: int, y0: int, h0: int, c: Color)
      requires Valid()
      modifies this`addrCol, this`addrRow, this`window, this`sent, this`frame
      ensures Valid()
      ensures frame == Painted(old(frame), vp.Seen(Rect(x0, y0, 1, h0)), c)
    {
      hide FrameOk, CacheOk, Painted;
      PaintNothing(frame, c);
      if vp.oob {
        assert vp.Seen(Rect(x0, y0, 1, h0)) == iset{};
        return;
      }
      var x, y, h := x0 + vp.xDatum, y0 + vp.yDatum, h0;
      if x < vp.x || x >= vp.w || y >= vp.h {
        assert vp.Seen(Rect(x0, y0, 1, h0)) == iset{};
        return;
      }
      if y < vp.y { h := h + (y - vp.y); y := vp.y; }
      if y + h > vp.h { h := vp.h - y; }
      if h < 1 {
        assert vp.Seen(Rect(x0, y0, 1, h0)) == iset{};
        return;
      }
      assert vp.Seen(Rect(x0, y0, 1, h0)) == Rect(x, y, 1, h);
      FillWindow(x, y, 1, h, c);
    }
  }
}
