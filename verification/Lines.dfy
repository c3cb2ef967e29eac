/**
 Straight lines: Bresenham's algorithm, with the pixels of a row (or column) batched
 into one fast line.
 */
module Lines {
  import opened Panel
  import opened Tft

  function Abs(a: int): nat {
    if a < 0 then -a else a
  }

  /** How far the minor axis has moved after `i` steps along the major one, and the error
      term then: the plain algorithm, one pixel at a time. */
  ghost function Minor(dx: nat, dy: nat, i: nat): (k: nat)
  {
    if i == 0 then 0 else Minor(dx, dy, i - 1) + if Err(dx, dy, i - 1) < dy then 1 else 0
  }

  ghost function Err(dx: nat, dy: nat, i: nat): (e: int)
  {
    if i == 0 then dx / 2
    else
      var e := Err(dx, dy, i - 1) - dy;
      if e < 0 then e + dx else e
  }

  /** The error term is the distance from the true line. */
  lemma {:induction false} ErrIsDistance(dx: nat, dy: nat, i: nat)
    requires dy <= dx
    ensures Err(dx, dy, i) == dx / 2 - i * dy + Minor(dx, dy, i) * dx
    ensures 0 <= Err(dx, dy, i) && (0 < dx ==> Err(dx, dy, i) < dx) && (dx == 0 ==> Err(dx, dy, i) == 0)
  {
    if i > 0 {
      ErrIsDistance(dx, dy, i - 1);
      OneStep(Minor(dx, dy, i - 1), dx, i, dy);
    }
  }

  lemma MinorStarts(dx: nat, dy: nat)
    ensures Minor(dx, dy, 0) == 0 && Err(dx, dy, 0) == dx / 2
  {
  }

  lemma MinorSteps(dx: nat, dy: nat, i: nat)
    ensures Err(dx, dy, i) < dy ==> Minor(dx, dy, i + 1) == Minor(dx, dy, i) + 1 && Err(dx, dy, i + 1) == Err(dx, dy, i) - dy + dx
    ensures Err(dx, dy, i) >= dy ==> Minor(dx, dy, i + 1) == Minor(dx, dy, i) && Err(dx, dy, i + 1) == Err(dx, dy, i) - dy
  {
  }

  lemma OneStep(k: int, dx: int, i: int, dy: int)
    ensures (k + 1) * dx == k * dx + dx && (i - 1) * dy == i * dy - dy
  {
  }

  /** Every pixel is within half a pixel of the true line. */
  lemma WithinHalf(dx: nat, dy: nat, i: nat)
    requires dy <= dx
    ensures 2 * Abs(Minor(dx, dy, i) * dx - i * dy) <= dx
  {
    ErrIsDistance(dx, dy, i);
  }

  /** The line ends where it should. */
  lemma EndsAtTarget(dx: nat, dy: nat)
    requires dy <= dx
    ensures Minor(dx, dy, dx) == dy
  {
    ErrIsDistance(dx, dy, dx);
    if dx > 0 {
      NearestMultiple(Minor(dx, dy, dx), dy, dx, Err(dx, dy, dx) - dx / 2);
    }
  }

  lemma NearestMultiple(k: int, q: int, m: int, v: int)
    requires m > 0 && v == k * m - m * q && -m < v < m
    ensures k == q
  {
    var d := k - q;
    assert d * m == v;
    assert d >= 1 ==> d * m >= m;
    assert d <= -1 ==> d * m <= -1 * m;
  }

  /** A line from (a0, b0) along its major axis: `dx` steps, the minor axis moving by `s`. */
  datatype Slope = Slope(a0: int, b0: int, dx: nat, dy: nat, s: int, steep: bool) {
    ghost predicate Valid() {
      dy <= dx
    }

    /** Its first `n` pixels: one for each step. */
    ghost function UpTo(n: int): iset<Pt> {
      iset p: Pt | 0 <= Major(p) - a0 < n && MinorOf(p) == b0 + s * Minor(dx, dy, Major(p) - a0)
    }

    function Major(p: Pt): int {
      if steep then p.y else p.x
    }

    function MinorOf(p: Pt): int {
      if steep then p.x else p.y
    }

    /** `len` pixels along the major axis. */
    ghost function Run(a: int, b: int, len: int): iset<Pt> {
      if steep then Rect(b, a, 1, len) else Rect(a, b, len, 1)
    }

    /** A batch of pixels at one height continues the line. */
    lemma RunContinues(from: nat, len: nat)
      requires forall j :: from <= j < from + len ==> Minor(dx, dy, j) == Minor(dx, dy, from)
      ensures UpTo(from) + Run(a0 + from, b0 + s * Minor(dx, dy, from), len) == UpTo(from + len)
    {
      hide Minor;
      var b := b0 + s * Minor(dx, dy, from);
      var longer := UpTo(from) + Run(a0 + from, b, len);
      forall p: Pt ensures p in longer <==> p in UpTo(from + len) {
        var j := Major(p) - a0;
        if from <= j < from + len {
          assert Minor(dx, dy, j) == Minor(dx, dy, from);
        }
      }
    }
  }

  /** The line between two points, with its axes sorted out. */
  function SlopeOf(x0: int, y0: int, x1: int, y1: int): (l: Slope)
    ensures l.Valid()
  {
    var steep := Abs(y1 - y0) > Abs(x1 - x0);
    var (a0, b0, a1, b1) := if steep then (y0, x0, y1, x1) else (x0, y0, x1, y1);
    var (a0, b0, a1, b1) := if a0 > a1 then (a1, b1, a0, b0) else (a0, b0, a1, b1);
    Slope(a0, b0, a1 - a0, Abs(b1 - b0), if b0 < b1 then 1 else -1, steep)
  }

  ghost function Line(x0: int, y0: int, x1: int, y1: int): iset<Pt> {
    var l := SlopeOf(x0, y0, x1, y1);
    l.UpTo(l.dx + 1)
  }

  /** Both ends are part of the line. */
  lemma LineHasEnds(x0: int, y0: int, x1: int, y1: int)
    ensures Pt(x0, y0) in Line(x0, y0, x1, y1) && Pt(x1, y1) in Line(x0, y0, x1, y1)
  {
    var l := SlopeOf(x0, y0, x1, y1);
    EndsAtTarget(l.dx, l.dy);
  }

  function Signed(s: int, d: int): int {
    if s == 1 then d else -d
  }

  /** How far (u, v) is off the line through the origin and (du, dv), times the length of that. */
  function Off(u: int, du: int, v: int, dv: int): int {
    v * du - u * dv
  }

  /** No pixel of the line is more than half a pixel off the true line, measured along the minor axis. */
  lemma LineIsClose(x0: int, y0: int, x1: int, y1: int, p: Pt)
    requires p in Line(x0, y0, x1, y1)
    ensures 2 * Abs(Off(p.x - x0, x1 - x0, p.y - y0, y1 - y0)) <= Max(Abs(x1 - x0), Abs(y1 - y0))
  {
    hide Minor, Off;
    var l := SlopeOf(x0, y0, x1, y1);
    SlopeIsClose(l, p);
    OffFlipped(p.x - x0, x1 - x0, p.y - y0, y1 - y0);
    OffOtherEnd(p.x - x0, x1 - x0, p.y - y0, y1 - y0);
    OffFlipped(p.x - x1, x0 - x1, p.y - y1, y0 - y1);
  }

  lemma SlopeIsClose(l: Slope, p: Pt)
    requires l.Valid() && (l.s == 1 || l.s == -1) && p in l.UpTo(l.dx + 1)
    ensures 2 * Abs(Off(l.Major(p) - l.a0, l.dx, l.MinorOf(p) - l.b0, Signed(l.s, l.dy))) <= l.dx
  {
    hide Minor, Off;
    var i := l.Major(p) - l.a0;
    WithinHalf(l.dx, l.dy, i);
    OffSigned(l.s, Minor(l.dx, l.dy, i), l.dx, i, l.dy);
  }

  lemma OffSigned(s: int, k: int, dx: int, i: int, dy: int)
    requires s == 1 || s == -1
    ensures Abs(Off(i, dx, s * k, Signed(s, dy))) == Abs(k * dx - i * dy)
  {
    var minus := -dy;
    assert -k * dx == -(k * dx) && i * minus == -(i * dy);
  }

  lemma OffFlipped(u: int, du: int, v: int, dv: int)
    ensures Abs(Off(v, dv, u, du)) == Abs(Off(u, du, v, dv))
  {
  }

  /** The same from the other end of the line, in the other direction. */
  lemma OffOtherEnd(u: int, du: int, v: int, dv: int)
    ensures Abs(Off(u - du, -du, v - dv, -dv)) == Abs(Off(u, du, v, dv))
  {
    assert (v - dv) * -du == dv * du - v * du && (u - du) * -dv == du * dv - u * dv;
  }

  /** Painting one more run of a line. */
  lemma PaintRun(f: Frame, v: Viewport, l: Slope, from: nat, len: nat, c: Color)
    requires len > 0
    requires forall j :: from <= j < from + len ==> Minor(l.dx, l.dy, j) == Minor(l.dx, l.dy, from + len - 1)
    ensures Painted(Painted(f, v.Seen(l.UpTo(from)), c),
                    v.Seen(l.Run(l.a0 + from, l.b0 + l.s * Minor(l.dx, l.dy, from + len - 1), len)), c)
            == Painted(f, v.Seen(l.UpTo(from + len)), c)
  {
    hide Minor, Painted, l.UpTo, l.Run, v.Seen;
    var run := l.Run(l.a0 + from, l.b0 + l.s * Minor(l.dx, l.dy, from), len);
    assert Minor(l.dx, l.dy, from) == Minor(l.dx, l.dy, from + len - 1);
    l.RunContinues(from, len);
    v.SeenUnion(l.UpTo(from), run);
    PaintUnion(f, v.Seen(l.UpTo(from)), v.Seen(run), c);
  }

  lemma NothingYet(f: Frame, v: Viewport, l: Slope, c: Color)
    ensures Painted(f, v.Seen(l.UpTo(0)), c) == f
  {
    assert l.UpTo(0) == iset{};
    assert v.Seen(iset{}) == iset{};
    PaintNothing(f, c);
  }

  lemma StepScaled(s: int, k: int)
    ensures s * (k + 1) == s * k + s
  {
  }

  /** The shallow case: runs are horizontal. */
  method DrawShallow(d: Display, l: Slope, c: Color)
    requires d.Valid() && l.Valid() && !l.steep
    modifies d`addrCol, d`addrRow, d`window, d`sent, d`frame
    ensures d.Valid()
    ensures d.frame == Painted(old(d.frame), d.vp.Seen(l.UpTo(l.dx + 1)), c)
  {
    hide d.Valid, Painted, d.vp.Seen, l.UpTo, Minor, Err;
    var x, y, err, xs, dlen := l.a0, l.b0, l.dx / 2, l.a0, 0;
    NothingYet(old(d.frame), d.vp, l, c);
    MinorStarts(l.dx, l.dy);
    while x <= l.a0 + l.dx
      invariant l.a0 <= xs <= x <= l.a0 + l.dx + 1 && dlen == x - xs
      invariant err == Err(l.dx, l.dy, x - l.a0) && y == l.b0 + l.s * Minor(l.dx, l.dy, x - l.a0)
      invariant forall j :: xs - l.a0 <= j < x - l.a0 ==> Minor(l.dx, l.dy, j) == Minor(l.dx, l.dy, x - l.a0)
      invariant d.Valid() && d.frame == Painted(old(d.frame), d.vp.Seen(l.UpTo(xs - l.a0)), c)
    {
      MinorSteps(l.dx, l.dy, x - l.a0);
      dlen := dlen + 1;
      err := err - l.dy;
      if err < 0 {
        assert Rect(xs, y, 1, 1) == iset{Pt(xs, y)};
        PaintRun(old(d.frame), d.vp, l, xs - l.a0, dlen, c);
        if dlen == 1 {
          d.DrawPixel(xs, y, c);
        } else {
          d.DrawFastHLine(xs, y, dlen, c);
        }
        dlen := 0;
        StepScaled(l.s, Minor(l.dx, l.dy, x - l.a0));
        y, xs := y + l.s, x + 1;
        err := err + l.dx;
      }
      x := x + 1;
    }
    if dlen > 0 {
      PaintRun(old(d.frame), d.vp, l, xs - l.a0, dlen, c);
      d.DrawFastHLine(xs, y, dlen, c);
    }
  }

  /** The steep case: runs are vertical. */
  method DrawSteep(d: Display, l: Slope, c: Color)
    requires d.Valid() && l.Valid() && l.steep
    modifies d`addrCol, d`addrRow, d`window, d`sent, d`frame
    ensures d.Valid()
    ensures d.frame == Painted(old(d.frame), d.vp.Seen(l.UpTo(l.dx + 1)), c)
  {
    hide d.Valid, Painted, d.vp.Seen, l.UpTo, Minor, Err;
    var x, y, err, xs, dlen := l.a0, l.b0, l.dx / 2, l.a0, 0;
    NothingYet(old(d.frame), d.vp, l, c);
    MinorStarts(l.dx, l.dy);
    while x <= l.a0 + l.dx
      invariant l.a0 <= xs <= x <= l.a0 + l.dx + 1 && dlen == x - xs
      invariant err == Err(l.dx, l.dy, x - l.a0) && y == l.b0 + l.s * Minor(l.dx, l.dy, x - l.a0)
      invariant forall j :: xs - l.a0 <= j < x - l.a0 ==> Minor(l.dx, l.dy, j) == Minor(l.dx, l.dy, x - l.a0)
      invariant d.Valid() && d.frame == Painted(old(d.frame), d.vp.Seen(l.UpTo(xs - l.a0)), c)
    {
      MinorSteps(l.dx, l.dy, x - l.a0);
      dlen := dlen + 1;
      err := err - l.dy;
      if err < 0 {
        assert Rect(y, xs, 1, 1) == iset{Pt(y, xs)};
        PaintRun(old(d.frame), d.vp, l, xs - l.a0, dlen, c);
        if dlen == 1 {
          d.DrawPixel(y, xs, c);
        } else {
          d.DrawFastVLine(y, xs, dlen, c);
        }
        dlen := 0;
        StepScaled(l.s, Minor(l.dx, l.dy, x - l.a0));
        y, xs := y + l.s, x + 1;
        err := err + l.dx;
      }
      x := x + 1;
    }
    if dlen > 0 {
      PaintRun(old(d.frame), d.vp, l, xs - l.a0, dlen, c);
      d.DrawFastVLine(y, xs, dlen, c);
    }
  }

  /** Colours exactly the visible pixels of the line. */
  method DrawLine(d: Display, x0: int, y0: int, x1: int, y1: int, c: Color)
    requires d.Valid()
    modifies d`addrCol, d`addrRow, d`window, d`sent, d`frame
    ensures d.Valid()
    ensures d.frame == Painted(old(d.frame), d.vp.Seen(Line(x0, y0, x1, y1)), c)
  {
    hide d.CacheOk, d.FrameOk, Painted, Minor;
    if d.vp.oob {
      assert d.vp.Seen(Line(x0, y0, x1, y1)) == iset{};
      PaintNothing(d.frame, c);
      return;
    }
    var steep := Abs(y1 - y0) > Abs(x1 - x0);
    var a0, b0, a1, b1 := x0, y0, x1, y1;
    if steep {
      a0, b0 := b0, a0;
      a1, b1 := b1, a1;
    }
    if a0 > a1 {
      a0, a1 := a1, a0;
      b0, b1 := b1, b0;
    }
    var l := Slope(a0, b0, a1 - a0, Abs(b1 - b0), if b0 < b1 then 1 else -1, steep);
    assert l == SlopeOf(x0, y0, x1, y1);
    if steep {
      DrawSteep(d, l, c);
    } else {
      DrawShallow(d, l, c);
    }
  }
}
