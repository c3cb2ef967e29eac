/**
 Filled circles by the midpoint algorithm, drawn as horizontal lines.
 */
module Circles {
  import opened Panel
  import opened Tft

  /** Half the width of each row of a filled shape, by the row's distance from the centre. */
  type Spans = map<int, int>

  ghost function Disc(x0: int, y0: int, half: Spans): iset<Pt> {
    iset p: Pt | p.y - y0 in half && -half[p.y - y0] <= p.x - x0 <= half[p.y - y0]
  }

  lemma DiscGrows(x0: int, y0: int, half: Spans, row: int, w: int)
    requires row in half ==> half[row] == w
    ensures Disc(x0, y0, half) + Rect(x0 - w, y0 + row, 2 * w + 1, 1) == Disc(x0, y0, half[row := w])
  {
  }

  /** The end of a span lies on a circle of radius R, give or take one pixel. */
  ghost predicate OnCircle(R: int, a: int, b: int) {
    (R - 1) * (R - 1) <= a * a + b * b <= (R + 1) * (R + 1)
  }

  function Abs(a: int): nat {
    if a < 0 then -a else a
  }

  /** The half width `w` that the midpoint rule gives to the row at distance `a` from the centre. A
      row no higher than it is wide gets the largest width whose pixel lies inside, any other row
      the smallest width with which the next column would lie outside. */
  ghost predicate Midpoint(R: int, a: int, w: int) {
    var k := R * R - R + R / 2;
    if a <= w then a * a + w * (w - 1) <= k < a * a + w * (w + 1)
    else w >= 0 && w * w + 2 * w + a * a - a >= k && (w > 0 ==> w * w - 1 + a * a - a < k)
  }

  /** That width is unique. */
  lemma MidpointUnique(R: int, a: int, w: int, v: int)
    requires Midpoint(R, a, w) && Midpoint(R, a, v) && a >= 0
    ensures w == v
  {
    if a <= w && a <= v {
      if w < v { Staircase(w, v); } else if v < w { Staircase(v, w); }
    } else if a > w && a > v {
      if w < v { Squares(w, v); } else if v < w { Squares(v, w); }
    } else if a <= w {
      NotBoth(a, w, v);
    } else {
      NotBoth(a, v, w);
    }
  }

  lemma NonNegative(a: int, b: int)
    requires a >= 0 && b >= 0
    ensures a * b >= 0
  {
  }

  lemma Staircase(w: int, v: int)
    requires 0 <= w < v
    ensures w * (w + 1) <= v * (v - 1)
  {
    NonNegative(v - w - 1, v + w);
    assert v * (v - 1) - w * (w + 1) == (v - w - 1) * (v + w);
  }

  lemma Squares(w: int, v: int)
    requires 0 <= w < v
    ensures w * w + 2 * w <= v * v - 1
  {
    NonNegative(v - w - 1, v + w + 1);
    assert v * v - 1 - (w * w + 2 * w) == (v - w - 1) * (v + w + 1);
  }

  /** A row cannot count as flat for one width and as steep for another. */
  lemma NotBoth(a: int, w: int, v: int)
    requires 0 <= v < a <= w
    ensures v * v + 2 * v + a * a - a < a * a + w * (w - 1)
  {
    Squares(v, a);
    assert a * (a - 1) == a * a - a;
    if a < w {
      Staircase(a - 1, w);
    }
  }

  /** What the decision variable means. */
  ghost predicate Decision(R: int, x: int, r: int, p: int) {
    p == x * x + 2 * x + r * r - r - R * R + R - R / 2
  }

  lemma DecisionSteps(R: int, x: int, r: int, p: int)
    requires Decision(R, x, r, p)
    ensures Decision(R, x + 1, r, p + 2 * x + 3)
    ensures Decision(R, x + 1, r - 1, p - 2 * (r - 1) + 2 * x + 3)
  {
    assert (x + 1) * (x + 1) == x * x + 2 * x + 1;
    assert (r - 1) * (r - 1) == r * r - 2 * r + 1;
  }

  lemma SpanEnd(R: int, x: int, r: int, p: int)
    requires R >= 1 && r <= R && Decision(R, x, r, p) && 2 * x + 1 - 2 * r <= p <= 2 * x + 3
    ensures OnCircle(R, x, r) && OnCircle(R, r, x)
  {
    assert (R - 1) * (R - 1) == R * R - 2 * R + 1;
    assert (R + 1) * (R + 1) == R * R + 2 * R + 1;
  }

  /** The row drawn just before the radius is taken in, and the row drawn at the end of a step. */
  lemma SpanWidth(R: int, x: int, r: int, p: int)
    requires Decision(R, x, r, p) && 0 <= x
    ensures x < r && 0 <= p <= 2 * x ==> Midpoint(R, r, x)
    ensures x <= r && 2 * x + 1 - 2 * r <= p <= 2 * x ==> Midpoint(R, x, r)
  {
    assert r * (r - 1) == r * r - r && r * (r + 1) == r * r + r;
  }

  lemma SpanGood(R: int, x: int, r: int, p: int)
    requires R >= 1 && 0 <= x && 0 <= r <= R && Decision(R, x, r, p)
    requires 2 * x + 1 - 2 * r <= p <= 2 * x + 3 && (x <= r ==> p <= 2 * x)
    ensures x < r && 0 <= p ==> GoodEnd(R, x, r)
    ensures x <= r ==> GoodEnd(R, r, x)
  {
    hide OnCircle, Midpoint, Decision;
    SpanEnd(R, x, r, p);
    SpanWidth(R, x, r, p);
  }

  /** One span on each row from -R to R, of the width that the midpoint rule gives, the same above
      and below, and each ending on the circle. */
  ghost predicate IsDisc(R: int, half: Spans) {
    && (R < 0 ==> half == map[])
    && (R >= 0 ==> forall row :: row in half <==> -R <= row <= R)
    && (R >= 0 ==> half[0] == R && forall row :: row in half ==> half[row] == half[-row])
    && (R >= 1 ==> forall row :: row in half ==> OnCircle(R, half[row], row))
    && (R >= 1 ==> forall row :: row in half ==> Midpoint(R, Abs(row), half[row]))
  }

  /** So the spans, and with them the picture, depend on the radius alone. */
  lemma DiscUnique(R: int, a: Spans, b: Spans)
    requires IsDisc(R, a) && IsDisc(R, b)
    ensures a == b
  {
    hide Midpoint, OnCircle;
    if R >= 0 {
      assert forall row :: row in a <==> row in b;
      forall row | row in a ensures a[row] == b[row] {
        if R >= 1 {
          MidpointUnique(R, Abs(row), a[row], b[row]);
        }
      }
    }
  }

  /** The rows from the centre out to `x`, and those beyond `r`, have their spans. */
  ghost predicate HasRows(half: Spans, R: int, x: int, r: int) {
    forall row :: row in half <==> (-x <= row <= x || r < row <= R || -R <= row < -r)
  }

  /** Spans are the same above and below the centre. */
  ghost predicate Mirrored(half: Spans) {
    forall row :: row in half ==> -row in half && half[row] == half[-row]
  }

  /** Every span ends on the circle, where the midpoint rule says. */
  ghost predicate EndsOnCircle(half: Spans, R: int) {
    R >= 1 ==> forall row :: row in half ==> GoodEnd(R, half[row], row)
  }

  ghost predicate GoodEnd(R: int, w: int, row: int) {
    OnCircle(R, w, row) && Midpoint(R, Abs(row), w)
  }

  ghost predicate RowsDone(half: Spans, R: int, x: int, r: int) {
    HasRows(half, R, x, r) && Mirrored(half) && EndsOnCircle(half, R)
  }

  /** One row above and the same row below. */
  lemma RowsGrow(half: Spans, R: int, x: int, r: int, x': int, r': int, row: int, w: int)
    requires RowsDone(half, R, x, r) && 0 <= x && x <= r <= R
    requires row in half ==> half[row] == w
    requires R >= 1 ==> GoodEnd(R, w, row)
    requires (x' == x + 1 == row && r' == r) || (r' == r - 1 && row == r && x' == x)
    ensures RowsDone(half[row := w][-row := w], R, x', r')
    ensures -row in half ==> half[-row] == w
  {
    HasRowsGrows(half, R, x, r, x', r', row, w);
    MirroredGrows(half, row, w);
    EndsGrow(half, R, row, w);
  }

  lemma HasRowsGrows(half: Spans, R: int, x: int, r: int, x': int, r': int, row: int, w: int)
    requires HasRows(half, R, x, r) && 0 <= x && x <= r <= R
    requires (x' == x + 1 == row && r' == r) || (r' == r - 1 && row == r && x' == x)
    ensures HasRows(half[row := w][-row := w], R, x', r')
  {
  }

  lemma MirroredGrows(half: Spans, row: int, w: int)
    requires Mirrored(half) && (row in half ==> half[row] == w)
    ensures Mirrored(half[row := w][-row := w])
    ensures -row in half ==> half[-row] == w
  {
    assert -row in half ==> -(-row) in half;
  }

  lemma EndsGrow(half: Spans, R: int, row: int, w: int)
    requires EndsOnCircle(half, R) && (R >= 1 ==> GoodEnd(R, w, row))
    ensures EndsOnCircle(half[row := w][-row := w], R)
  {
    hide GoodEnd;
    NegSquare(R, w, row);
  }

  lemma NegSquare(R: int, w: int, row: int)
    ensures GoodEnd(R, w, row) <==> GoodEnd(R, w, -row)
  {
    assert (-row) * (-row) == row * row;
  }

  /** Draws the same line above and below the centre. */
  method DrawRowPair(d: Display, x0: int, y0: int, row: int, w: int, len: int, c: Color, ghost before: Frame, ghost half: Spans)
    requires d.Valid() && d.frame == Painted(before, d.vp.Seen(Disc(x0, y0, half)), c)
    requires row != 0 && len == 2 * w + 1
    requires (row in half ==> half[row] == w) && (-row in half ==> half[-row] == w)
    modifies d`addrCol, d`addrRow, d`window, d`sent, d`frame
    ensures d.Valid() && d.frame == Painted(before, d.vp.Seen(Disc(x0, y0, half[row := w][-row := w])), c)
  {
    hide d.Valid, Painted, d.vp.Seen, Disc, Rect;
    PaintRow(before, d.vp, x0, y0, half, row, w, c);
    PaintRow(before, d.vp, x0, y0, half[row := w], -row, w, c);
    d.DrawFastHLine(x0 - w, y0 + row, len, c);
    d.DrawFastHLine(x0 - w, y0 - row, len, c);
  }

  lemma PaintRow(f: Frame, v: Viewport, x0: int, y0: int, half: Spans, row: int, w: int, c: Color)
    requires row in half ==> half[row] == w
    ensures Painted(Painted(f, v.Seen(Disc(x0, y0, half)), c), v.Seen(Rect(x0 - w, y0 + row, 2 * w + 1, 1)), c)
            == Painted(f, v.Seen(Disc(x0, y0, half[row := w])), c)
  {
    hide Painted, v.Seen, Disc, Rect;
    DiscGrows(x0, y0, half, row, w);
    v.SeenUnion(Disc(x0, y0, half), Rect(x0 - w, y0 + row, 2 * w + 1, 1));
    PaintUnion(f, v.Seen(Disc(x0, y0, half)), v.Seen(Rect(x0 - w, y0 + row, 2 * w + 1, 1)), c);
  }

  /** Paints one centred span on each row from -R to R and on no other row; every span ends
      on the circle. */
  method FillCircle(d: Display, x0: int, y0: int, R: int, c: Color) returns (ghost half: Spans)
    requires d.Valid()
    modifies d`addrCol, d`addrRow, d`window, d`sent, d`frame
    ensures d.Valid() && d.frame == Painted(old(d.frame), d.vp.Seen(Disc(x0, y0, half)), c)
    ensures IsDisc(R, half)
  {
    hide d.Valid, Painted, d.vp.Seen, Disc, Rect, GoodEnd, Decision, Mirrored, EndsOnCircle, IsDisc;
    var x, r, dx, dy, p := 0, R, 1, R + R, -(R / 2);
    FirstRow(old(d.frame), d.vp, x0, y0, R, c);
    half := if R < 0 then map[] else map[0 := R];
    d.DrawFastHLine(x0 - r, y0, dy + 1, c);
    while x < r
      invariant R < 0 ==> half == map[] && r == R && x == 0
      invariant R >= 0 ==> 0 <= x <= r + 1 && x <= R && r <= R && RowsDone(half, R, x, r) && half[0] == R
      invariant dx == 2 * x + 1 && dy == 2 * r
      invariant R >= 1 ==> Decision(R, x, r, p) && 2 * x + 1 - 2 * r <= p <= 2 * x + 3 && (x <= r ==> p <= 2 * x)
      invariant d.Valid() && d.frame == Painted(old(d.frame), d.vp.Seen(Disc(x0, y0, half)), c)
      decreases r - x
    {
      DecisionSteps(R, x, r, p);
      SpanGood(R, x, r, p);
      if p >= 0 {
        RowsGrow(half, R, x, r, x, r - 1, r, x);
        DrawRowPair(d, x0, y0, r, x, dx, c, old(d.frame), half);
        half := half[r := x][-r := x];
        dy := dy - 2;
        p := p - dy;
        r := r - 1;
      }
      dx := dx + 2;
      p := p + dx;
      x := x + 1;
      SpanGood(R, x, r, p);
      RowsGrow(half, R, x - 1, r, x, r, x, r);
      DrawRowPair(d, x0, y0, x, r, dy + 1, c, old(d.frame), half);
      half := half[x := r][-x := r];
    }
    SpansMean(half, R);
  }

  lemma SpansMean(half: Spans, R: int)
    requires R < 0 ==> half == map[]
    requires R >= 0 ==> (forall row :: row in half <==> -R <= row <= R) && half[0] == R && Mirrored(half) && EndsOnCircle(half, R)
    ensures IsDisc(R, half)
  {
    hide OnCircle, Midpoint;
    assert R >= 1 ==> forall row :: row in half ==> GoodEnd(R, half[row], row);
  }

  lemma FirstRow(f: Frame, v: Viewport, x0: int, y0: int, R: int, c: Color)
    ensures R < 0 ==> Painted(f, v.Seen(Rect(x0 - R, y0, R + R + 1, 1)), c) == Painted(f, v.Seen(Disc(x0, y0, map[])), c)
    ensures R >= 0 ==> Painted(f, v.Seen(Rect(x0 - R, y0, R + R + 1, 1)), c) == Painted(f, v.Seen(Disc(x0, y0, map[0 := R])), c)
    ensures R >= 0 ==> RowsDone(map[0 := R], R, 0, R)
    ensures R >= 1 ==> Decision(R, 0, R, -(R / 2))
  {
    hide Painted;
    assert R < 0 ==> Rect(x0 - R, y0, R + R + 1, 1) == Disc(x0, y0, map[]);
    assert R >= 0 ==> Rect(x0 - R, y0, R + R + 1, 1) == Disc(x0, y0, map[0 := R]);
    assert (R - 1) * (R - 1) == R * R - 2 * R + 1;
    assert (R + 1) * (R + 1) == R * R + 2 * R + 1;
  }
}
