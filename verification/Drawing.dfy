/**
 Sequences of drawing calls. The picture after any of them is that of painting the
 shapes one after the other, so no call is led astray by the window, or the cached
 pixel address, that an earlier one left behind.
 */
module Drawing {
  import opened Bytes
  import opened Panel
  import opened Tft
  import Lines
  import Circles
  import Glyphs
  import Blits

  datatype Op =
    | SetViewport(x: int, y: int, w: int, h: int, useDatum: bool)
    | ResetViewport
    | Origin(x: int, y: int)
    | Pixel(x: int, y: int, color: Color)
    | HLine(x: int, y: int, w: int, color: Color)
    | VLine(x: int, y: int, h: int, color: Color)
    | Fill(x: int, y: int, w: int, h: int, color: Color)
    | Line(x0: int, y0: int, x1: int, y1: int, color: Color)
    | Circle(x: int, y: int, radius: int, color: Color)
    | Char(x: int, y: int, width: nat, height: nat, rle: seq<byte>, size: nat, fg: Color, bg: Color)
    | Image16(x: int, y: int, w: int, h: int, data16: seq<Color>, transp16: Color, swapBytes: bool)
    | Image8(x: int, y: int, w: int, h: int, data: seq<byte>, transp: byte)
    | Image4(x: int, y: int, w: int, h: int, data: seq<byte>, cmap: seq<Color>, transp: byte)
  {
    /** The data of a character or an image is all there. */
    ghost predicate Ok() {
      match this
      case Char(_, _, width, height, rle, size, _, _) => 1 <= size <= 7 && |Glyphs.Decode(rle)| == width * height
      case Image16(_, _, w, h, data, _, _) => 0 < w && 0 < h ==> w * h <= |data|
      case Image8(_, _, w, h, data, _) => 0 < w && 0 < h ==> w * h <= |data|
      case Image4(_, _, w, h, data, cmap, _) =>
        |cmap| == 16 && (0 < w && 0 < h ==> (h - 1) * Blits.Stride(w) + w <= 2 * |data|)
      case _ => true
    }

    /** The viewport after the call, on a screen of that size. */
    ghost function View(v: Viewport, width: int, height: int): Viewport {
      match this
      case SetViewport(x, y, w, h, useDatum) => ViewOf(width, height, x, y, w, h, useDatum)
      case ResetViewport => ViewOf(width, height, 0, 0, width, height, true)
      case Origin(x, y) => v.(xDatum := x, yDatum := y)
      case _ => v
    }

    /** The picture after the call; `half` gives the spans of a circle. */
    ghost function Picture(f: Frame, v: Viewport, half: Circles.Spans): Frame
      requires Ok()
    {
      match this
      case SetViewport(_, _, _, _, _) => f
      case ResetViewport => f
      case Origin(_, _) => f
      case Pixel(x, y, c) => Painted(f, v.Seen(iset{Pt(x, y)}), c)
      case HLine(x, y, w, c) => Painted(f, v.Seen(Rect(x, y, w, 1)), c)
      case VLine(x, y, h, c) => Painted(f, v.Seen(Rect(x, y, 1, h)), c)
      case Fill(x, y, w, h, c) => Painted(f, v.Seen(Rect(x, y, w, h)), c)
      case Line(x0, y0, x1, y1, c) => Painted(f, v.Seen(Lines.Line(x0, y0, x1, y1)), c)
      case Circle(x, y, _, c) => Painted(f, v.Seen(Circles.Disc(x, y, half)), c)
      case Char(x, y, width, height, rle, size, fg, bg) =>
        Glyphs.Shown(f, v, Glyphs.Glyph(x, y, width, height, size, Glyphs.Decode(rle)), width * height, fg, bg)
      case Image16(x, y, w, h, data, transp, swapBytes) =>
        Blits.Blit(f, v, x, y, w, h, Blits.Source16(data, w, transp, swapBytes))
      case Image8(x, y, w, h, data, transp) =>
        Blits.Blit(f, v, x, y, w, h, Blits.Source8(data, w, transp))
      case Image4(x, y, w, h, data, cmap, transp) =>
        Blits.Blit(f, v, x, y, w, h, Blits.Source4(data, Blits.Stride(w), cmap, transp))
    }
  }

  method Draw(d: Display, op: Op) returns (ghost half: Circles.Spans)
    requires d.Valid() && op.Ok()
    modifies d`vp, d`addrCol, d`addrRow, d`window, d`sent, d`frame
    ensures d.Valid() && d.vp == op.View(old(d.vp), d.width, d.height)
    ensures d.frame == op.Picture(old(d.frame), old(d.vp), half)
    ensures op.Circle? ==> Circles.IsDisc(op.radius, half)
  {
    hide d.Valid, Painted, Lines.Line, Circles.Disc, Circles.IsDisc, Glyphs.Shown, Glyphs.Decode, Blits.Blit, Blits.Stride, ViewOf;
    half := map[];
    match op
    case SetViewport(x, y, w, h, useDatum) => d.SetViewport(x, y, w, h, useDatum);
    case ResetViewport => d.ResetViewport();
    case Origin(x, y) => d.SetOrigin(x, y);
    case Pixel(x, y, c) => d.DrawPixel(x, y, c);
    case HLine(x, y, w, c) => d.DrawFastHLine(x, y, w, c);
    case VLine(x, y, h, c) => d.DrawFastVLine(x, y, h, c);
    case Fill(x, y, w, h, c) => d.FillRect(x, y, w, h, c);
    case Line(x0, y0, x1, y1, c) => Lines.DrawLine(d, x0, y0, x1, y1, c);
    case Circle(x, y, r, c) => half := Circles.FillCircle(d, x, y, r, c);
    case Char(x, y, width, height, rle, size, fg, bg) =>
      var advance := Glyphs.DrawChar(d, x, y, width, height, rle, size, fg, bg);
    case Image16(x, y, w, h, data, transp, swapBytes) => Blits.PushImage16(d, x, y, w, h, data, transp, swapBytes);
    case Image8(x, y, w, h, data, transp) => Blits.PushImage8(d, x, y, w, h, data, transp);
    case Image4(x, y, w, h, data, cmap, transp) => Blits.PushImage4(d, x, y, w, h, data, cmap, transp);
  }

  ghost predicate AllOk(ops: seq<Op>) {
    forall i :: 0 <= i < |ops| ==> ops[i].Ok()
  }

  /** The viewport after the calls. */
  ghost function ViewAfter(v: Viewport, width: int, height: int, ops: seq<Op>): (r: Viewport) {
    if ops == [] then v
    else ops[|ops| - 1].View(ViewAfter(v, width, height, ops[..|ops| - 1]), width, height)
  }

  /** The picture after the calls; `discs[i]` gives the spans of call `i` if that is a circle. */
  ghost function PictureAfter(f: Frame, v: Viewport, width: int, height: int, ops: seq<Op>, discs: seq<Circles.Spans>): (r: Frame)
    requires AllOk(ops) && |discs| == |ops|
  {
    if ops == [] then f
    else
      var n := |ops| - 1;
      var g := PictureAfter(f, v, width, height, ops[..n], discs[..n]);
      ops[n].Picture(g, ViewAfter(v, width, height, ops[..n]), discs[n])
  }

  lemma OneMore(f: Frame, v: Viewport, width: int, height: int, ops: seq<Op>, discs: seq<Circles.Spans>, i: nat, half: Circles.Spans)
    requires AllOk(ops) && |discs| == i < |ops|
    ensures ViewAfter(v, width, height, ops[..i + 1]) == ops[i].View(ViewAfter(v, width, height, ops[..i]), width, height)
    ensures PictureAfter(f, v, width, height, ops[..i + 1], discs + [half]) ==
            ops[i].Picture(PictureAfter(f, v, width, height, ops[..i], discs), ViewAfter(v, width, height, ops[..i]), half)
  {
    assert ops[..i + 1][..i] == ops[..i] && (discs + [half])[..i] == discs;
  }

  method DrawAll(d: Display, ops: seq<Op>) returns (ghost discs: seq<Circles.Spans>)
    requires d.Valid() && AllOk(ops)
    modifies d`vp, d`addrCol, d`addrRow, d`window, d`sent, d`frame
    ensures d.Valid() && d.vp == ViewAfter(old(d.vp), d.width, d.height, ops)
    ensures |discs| == |ops| && d.frame == PictureAfter(old(d.frame), old(d.vp), d.width, d.height, ops, discs)
    ensures forall i :: 0 <= i < |ops| && ops[i].Circle? ==> Circles.IsDisc(ops[i].radius, discs[i])
  {
    hide d.Valid, ViewAfter, PictureAfter, Circles.IsDisc;
    discs := [];
    var i := 0;
    NoCalls(d.frame, d.vp, d.width, d.height, ops);
    while i < |ops|
      invariant 0 <= i <= |ops| && |discs| == i
      invariant d.Valid() && d.vp == ViewAfter(old(d.vp), d.width, d.height, ops[..i])
      invariant d.frame == PictureAfter(old(d.frame), old(d.vp), d.width, d.height, ops[..i], discs)
      invariant forall j :: 0 <= j < i && ops[j].Circle? ==> Circles.IsDisc(ops[j].radius, discs[j])
    {
      ghost var half := Draw(d, ops[i]);
      OneMore(old(d.frame), old(d.vp), d.width, d.height, ops, discs, i, half);
      discs := discs + [half];
      i := i + 1;
    }
    assert ops[..i] == ops;
  }

  lemma NoCalls(f: Frame, v: Viewport, width: int, height: int, ops: seq<Op>)
    ensures ViewAfter(v, width, height, ops[..0]) == v && PictureAfter(f, v, width, height, ops[..0], []) == f
  {
  }

  /** However often the viewport is set, the clip box stays on the screen. */
  lemma {:induction false} ClipStaysOnScreen(v: Viewport, width: int, height: int, ops: seq<Op>)
    requires width > 0 && height > 0 && v.Ok(width, height)
    ensures ViewAfter(v, width, height, ops).Ok(width, height)
    ensures ViewAfter(v, width, height, ops).Clip() <= Rect(0, 0, width, height)
  {
    if ops != [] {
      ClipStaysOnScreen(v, width, height, ops[..|ops| - 1]);
    }
  }
}
