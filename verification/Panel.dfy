/**
 What a display panel shows, and which pixel of its window a stream of pixels reaches.
 */
module Panel {

  type Color = c: nat | c < 0x1_0000

  datatype Pt = Pt(x: int, y: int)

  /** The picture: a colour for every pixel of the screen. */
  type Frame = map<Pt, Color>

  ghost function Rect(x: int, y: int, w: int, h: int): iset<Pt> {
    iset p: Pt | x <= p.x < x + w && y <= p.y < y + h
  }

  /** The picture with all pixels of `s` that it has coloured `c`. */
  ghost function Painted(f: Frame, s: iset<Pt>, c: Color): (r: Frame)
    ensures r.Keys == f.Keys
  {
    map p | p in f :: if p in s then c else f[p]
  }

  lemma PaintUnion(f: Frame, a: iset<Pt>, b: iset<Pt>, c: Color)
    ensures Painted(Painted(f, a, c), b, c) == Painted(f, a + b, c)
  {
  }

  lemma PaintNothing(f: Frame, c: Color)
    ensures Painted(f, iset{}, c) == f
  {
  }

  /** The columns and rows that incoming pixels fill, row by row. */
  datatype Window = Window(x0: int, y0: int, x1: int, y1: int) {
    ghost predicate Valid() {
      x0 <= x1 && y0 <= y1
    }

    function W(): int { x1 - x0 + 1 }
    function H(): int { y1 - y0 + 1 }
    function Area(): int { W() * H() }

    /** The position of the `k`-th pixel sent. */
    function At(k: nat): (p: Pt)
      requires Valid()
    {
      Pt(x0 + k % W(), y0 + k / W())
    }

    /** How many pixels are sent before the one at `p`. */
    ghost function Index(p: Pt): (k: int) {
      (p.y - y0) * W() + (p.x - x0)
    }

    ghost function Points(): iset<Pt> {
      Rect(x0, y0, W(), H())
    }

    /** The pixels of the window from the `k`-th on, `n` of them. */
    ghost function Stretch(k: int, n: int): iset<Pt> {
      iset p: Pt | p in Points() && k <= Index(p) < k + n
    }

    lemma AtIsInverse(k: nat, p: Pt)
      requires Valid() && p in Points()
      ensures At(k) == p <==> Index(p) == k
    {
      var w := W();
      EuclidUnique(k, w, p.y - y0, p.x - x0);
    }

    lemma AtInside(k: nat)
      requires Valid() && k < Area()
      ensures At(k) in Points() && Index(At(k)) == k
    {
      var w := W();
      assert k == k / w * w + k % w;
      RowInGrid(k / w, w, H());
    }

    lemma WholeWindow()
      requires Valid()
      ensures Stretch(0, Area()) == Points()
    {
      forall p | p in Points() ensures 0 <= Index(p) < Area() {
        CellInGrid(p.y - y0, p.x - x0, W(), H());
      }
    }

    lemma StretchGrows(k: nat, n: nat)
      requires Valid() && k + n < Area()
      ensures Stretch(k, n + 1) == Stretch(k, n) + iset{At(k + n)}
    {
      AtInside(k + n);
      forall p | p in Points() ensures At(k + n) == p <==> Index(p) == k + n {
        AtIsInverse(k + n, p);
      }
    }
  }

  lemma CellInGrid(row: int, col: int, w: int, h: int)
    requires 0 <= row < h && 0 <= col < w
    ensures 0 <= row * w + col < w * h
  {
    assert 0 <= row * w;
    assert (row + 1) * w <= h * w;
  }

  lemma RowInGrid(row: int, w: int, h: int)
    requires w > 0 && row * w < w * h
    ensures row < h
  {
    assert row >= h ==> row * w >= h * w;
  }

  lemma EuclidUnique(k: nat, w: int, q: int, r: int)
    requires w > 0 && 0 <= r < w
    ensures k == q * w + r <==> k / w == q && k % w == r
  {
    var d: int := k / w - q;
    assert k == k / w * w + k % w;
    if k == q * w + r {
      assert d * w == r - k % w;
      assert d >= 1 ==> d * w >= w;
      assert d <= -1 ==> d * w <= -w;
    }
  }
}
