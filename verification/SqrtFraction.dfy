/**
 The fixed-point square root behind the smooth edges: the first eight bits of the
 fraction of a square root, in 32-bit arithmetic throughout.
 */
module SqrtFraction {

  newtype u32 = x: int | 0 <= x < 0x1_0000_0000
  newtype u8 = x: int | 0 <= x < 0x100

  ghost function Pow2(n: nat): (p: int)
    ensures p >= 1
  {
    if n == 0 then 1 else 2 * Pow2(n - 1)
  }

  lemma {:induction false} Pow2Add(a: nat, b: nat)
    ensures Pow2(a + b) == Pow2(a) * Pow2(b)
  {
    if a > 0 {
      Pow2Add(a - 1, b);
      assert Pow2(a + b) == 2 * Pow2(a - 1 + b);
      Assoc(Pow2(a - 1), Pow2(b));
    }
  }

  lemma Assoc(x: int, y: int)
    ensures 2 * (x * y) == (2 * x) * y
  {
  }

  lemma {:induction false} Pow2Monotone(a: nat, b: nat)
    requires a <= b
    ensures Pow2(a) <= Pow2(b)
  {
    if a < b {
      Pow2Monotone(a, b - 1);
    }
  }

  /** After the bits above `b` are decided: `q` is the root so far, `rest` what is left of the
      radicand, scaled down by `b`. */
  ghost predicate Rooted(radicand: int, q: int, b: int, rest: int) {
    rest * b == radicand - q * q && radicand < (q + 2 * b) * (q + 2 * b)
  }

  /** Deciding the bit `b`. */
  lemma DecideBit(radicand: int, q: int, b: int, rest: int)
    requires b >= 1 && q >= 0 && rest >= 0 && Rooted(radicand, q, b, rest)
    ensures rest >= b + 2 * q ==>
              (rest - (b + 2 * q)) * b == radicand - (q + b) * (q + b) && radicand < (q + b + b) * (q + b + b)
    ensures rest < b + 2 * q ==> radicand < (q + b) * (q + b)
  {
    assert (q + b) * (q + b) == q * q + (b + 2 * q) * b;
    assert (rest - (b + 2 * q)) * b == rest * b - (b + 2 * q) * b;
    assert q + 2 * b == q + b + b;
    if rest < b + 2 * q {
      assert rest * b < (b + 2 * q) * b;
    }
  }

  /** The remainder stays small enough to be doubled in 32 bits. */
  lemma NoOverflow(radicand: int, q: int, b: int, rest: int, m: int, t: int, u: int)
    requires b >= 1 && q >= 0 && rest >= 0 && rest * b == radicand - q * q && radicand < (q + b) * (q + b)
    requires radicand <= m * m && q == b * t && m == b * u && 1 <= m <= 0x4000_0000
    ensures q <= m && 2 * rest < 0x1_0000_0000
  {
    assert 0 <= rest * b;
    assert q > m ==> q * q > m * m;
    RestBound(radicand, q, b, rest);
    if q == m {
      assert rest * b <= 0;
      assert rest == 0;
    } else {
      Below(b, t, u);
    }
  }

  lemma RestBound(radicand: int, q: int, b: int, rest: int)
    requires b >= 1 && rest * b == radicand - q * q && radicand < (q + b) * (q + b)
    ensures rest < 2 * q + b
  {
    assert (q + b) * (q + b) == q * q + (2 * q + b) * b;
    assert rest >= 2 * q + b ==> rest * b >= (2 * q + b) * b;
  }

  lemma Below(b: int, t: int, u: int)
    requires b >= 1 && b * t < b * u
    ensures b * t <= b * u - b
  {
    var d := u - t;
    assert b * d == b * u - b * t;
    assert d <= 0 ==> b * d <= 0;
    assert d >= 1 ==> b * d >= b;
  }

  /** One round of the loop, on the numbers it works with. */
  lemma {:induction false} OneRound(radicand: int, m: nat, e: nat, q: int, t: int, num: int) returns (q': int, num': int, t': int)
    requires e <= m <= 30 && q >= 0 && num >= 0 && q == 2 * Pow2(e) * t
    requires Rooted(radicand, q, Pow2(e), num) && radicand <= Pow2(m) * Pow2(m)
    ensures var b := Pow2(e);
            && (if num >= b + 2 * q then q' == q + b && num' == num - (b + 2 * q) else q' == q && num' == num)
            && 0 <= num' && num' * b == radicand - q' * q' && radicand < (q' + b) * (q' + b)
            && 0 <= q' <= Pow2(m) && 2 * num' < 0x1_0000_0000 && q' == b * t'
  {
    hide Rooted, Pow2;
    var b := Pow2(e);
    DecideBit(radicand, q, b, num);
    RootedMeans(radicand, q, b, num);
    if num >= b + 2 * q {
      q', num', t' := q + b, num - (b + 2 * q), 2 * t + 1;
    } else {
      q', num', t' := q, num, 2 * t;
    }
    Twice(b, t);
    Pow2Add(e, m - e);
    Pow2Monotone(m, 30);
    Pow2Of30();
    NoOverflow(radicand, q', b, num', Pow2(m), t', Pow2(m - e));
  }

  lemma RootedMeans(radicand: int, q: int, b: int, rest: int)
    requires Rooted(radicand, q, b, rest)
    ensures rest * b == radicand - q * q && radicand < (q + 2 * b) * (q + 2 * b)
  {
  }

  lemma Twice(b: int, t: int)
    ensures 2 * b * t == b * (2 * t) && 2 * b * t + b == b * (2 * t + 1)
  {
  }

  lemma {:induction false} Pow2Of30()
    ensures Pow2(30) == 0x4000_0000 && Pow2(14) == 0x4000 && Pow2(0) == 1
  {
    assert Pow2(7) == 128;
    Pow2Add(7, 7);
    Pow2Add(1, 14);
    Pow2Add(15, 15);
  }

  lemma {:induction false} NextBit(radicand: int, q: int, e: nat, rest: int, t: int)
    requires e > 0 && rest * Pow2(e) == radicand - q * q && radicand < (q + Pow2(e)) * (q + Pow2(e)) && q == Pow2(e) * t
    ensures Rooted(radicand, q, Pow2(e - 1), 2 * rest) && q == 2 * Pow2(e - 1) * t
  {
    var b := Pow2(e - 1);
    assert Pow2(e) == 2 * b;
    assert 2 * rest * b == rest * (2 * b);
  }

  /** The bits of the root of `num * bsh`, from the highest down. No step overflows. */
  method RootBits(num0: u32, bsh0: u32, ghost m: nat) returns (fpr: u32, ghost q: int)
    requires m <= 30 && bsh0 as int == Pow2(m) && num0 <= bsh0
    ensures fpr as int == 2 * q && q >= 0
    ensures q * q <= num0 as int * Pow2(m) < (q + 1) * (q + 1)
  {
    hide Rooted, Pow2;
    var num, bsh := num0, bsh0;
    fpr, q := 0, 0;
    ghost var radicand, t := num0 as int * Pow2(m), 0;
    ghost var e: nat := m;
    Pow2Monotone(m, 30);
    Pow2Of30();
    Start(num0 as int, Pow2(m));
    while true
      invariant e <= m && bsh as int == Pow2(e) && fpr as int == 2 * q && 0 <= q <= Pow2(m) && q == 2 * Pow2(e) * t
      invariant Rooted(radicand, q, Pow2(e), num as int)
      decreases e
    {
      ghost var q', num', t' := OneRound(radicand, m, e, q, t, num as int);
      Pow2Monotone(e, m);
      var bod := bsh + fpr;
      if num >= bod {
        num := num - bod;
        fpr := bsh + bod;
      }
      num := num * 2;
      Halves(e);
      bsh := bsh / 2;
      q, t := q', t';
      if bsh == 0 {
        break;
      }
      NextBit(radicand, q, e, num', t);
      e := e - 1;
    }
  }

  lemma Start(n: int, b: int)
    requires 0 <= n <= b && b >= 1
    ensures Rooted(n * b, 0, b, n) && n * b <= b * b
  {
    assert n * b <= b * b;
    assert (0 + 2 * b) * (0 + 2 * b) == 4 * (b * b);
    assert b * b >= 1;
  }

  lemma ScaledLow(n: int, q: int, s: int, f: int)
    requires q >= 0 && s >= 1 && f >= 0 && f * s <= 2 * q && q * q <= n * (0x4000 * (s * s))
    ensures f * f <= 0x1_0000 * n
  {
    Product(n, s);
    assert 0 <= f * s;
    SquareLeq(f * s, 2 * q);
    SquareOf(f, s);
    assert (2 * q) * (2 * q) == 4 * (q * q);
    Cancel(f * f, 0x1_0000 * n, s * s);
  }

  lemma ScaledHigh(n: int, q: int, s: int, g: int)
    requires q >= 0 && s >= 1 && 2 * q + 2 <= g * s && n * (0x4000 * (s * s)) < (q + 1) * (q + 1)
    ensures 0x1_0000 * n < g * g
  {
    Product(n, s);
    SquareLeq(2 * q + 2, g * s);
    SquareOf(g, s);
    assert (2 * q + 2) * (2 * q + 2) == 4 * ((q + 1) * (q + 1));
    CancelLt(0x1_0000 * n, g * g, s * s);
  }

  /** Scaling the root of a scaled number back down. */
  lemma ScaledBack(n: int, q: int, s: int, f: int)
    requires q >= 0 && s >= 1 && f == 2 * q / s
    requires q * q <= n * (0x4000 * (s * s)) < (q + 1) * (q + 1)
    ensures f * f <= 0x1_0000 * n
    ensures s == 1 ==> 0x1_0000 * n < (f + 2) * (f + 2) && f % 2 == 0
    ensures s % 2 == 0 ==> 0x1_0000 * n < (f + 1) * (f + 1)
  {
    RoundedDown(q, s, f);
    ScaledLow(n, q, s, f);
    if s == 1 {
      ScaledHigh(n, q, s, f + 2);
    } else if s % 2 == 0 {
      ScaledHigh(n, q, s, f + 1);
    }
  }

  lemma RoundedDown(q: int, s: int, f: int)
    requires q >= 0 && s >= 1 && f == 2 * q / s
    ensures f >= 0 && f * s <= 2 * q
    ensures s == 1 ==> f == 2 * q && 2 * q + 2 <= (f + 2) * s
    ensures s % 2 == 0 ==> 2 * q + 2 <= (f + 1) * s
  {
    DivisionBounds(2 * q, s, f);
    if s % 2 == 0 {
      EvenAbove(q, f + 1, s);
    }
  }

  lemma DivisionBounds(a: int, s: int, f: int)
    requires a >= 0 && s >= 1 && f == a / s
    ensures f >= 0 && f * s <= a < (f + 1) * s
    ensures s == 1 ==> f == a && a + 2 <= (f + 2) * s
  {
    assert a == f * s + a % s;
    assert (f + 1) * s == f * s + s;
  }

  /** The next multiple of an even number above an even number is above it by at least two. */
  lemma EvenAbove(q: int, g: int, s: int)
    requires s % 2 == 0 && 2 * q < g * s
    ensures 2 * q + 2 <= g * s
  {
    var h, p := s / 2, g * (s / 2);
    assert s == 2 * h;
    assert g * s == 2 * p by { Regroup(g, h); }
  }

  lemma Regroup(g: int, h: int)
    ensures g * (2 * h) == 2 * (g * h)
  {
  }

  lemma Product(n: int, s: int)
    ensures 4 * (n * (0x4000 * (s * s))) == 0x1_0000 * n * (s * s)
  {
  }

  lemma SquareLeq(a: int, b: int)
    requires 0 <= a <= b
    ensures a * a <= b * b
  {
  }

  lemma SquareOf(a: int, s: int)
    ensures (a * s) * (a * s) == a * a * (s * s)
  {
  }

  lemma Cancel(a: int, b: int, c: int)
    requires a * c <= b * c && c >= 1
    ensures a <= b
  {
    assert a > b ==> a * c > b * c;
  }

  lemma CancelLt(a: int, b: int, c: int)
    requires a * c < b * c && c >= 1
    ensures a < b
  {
    assert a >= b ==> a * c >= b * c;
  }

  lemma {:induction false} NextScale(k: nat)
    requires 14 + 2 * k <= 30 && Pow2(14 + 2 * k) < 0x4000_0000
    ensures k < 8 && Pow2(14 + 2 * (k + 1)) == 4 * Pow2(14 + 2 * k) && Pow2(k + 1) == 2 * Pow2(k)
    ensures Pow2(14 + 2 * (k + 1)) <= 0x4000_0000 && Pow2(k + 1) <= 0x4000_0000
  {
    hide Pow2;
    Pow2Of30();
    assert k != 8;
    Pow2Monotone(14 + 2 * (k + 1), 30);
    Pow2Monotone(k + 1, 30);
    Doubles(14 + 2 * k);
    Doubles(14 + 2 * k + 1);
    Doubles(k);
  }

  lemma {:induction false} Halves(e: nat)
    ensures e == 0 <==> Pow2(e) / 2 == 0
    ensures e == 0 ==> Pow2(e) == 1
    ensures e > 0 ==> Pow2(e) / 2 == Pow2(e - 1)
  {
  }

  lemma {:induction false} Doubles(n: nat)
    ensures Pow2(n + 1) == 2 * Pow2(n)
  {
  }

  /** The smallest starting bit that covers `num`; `scale` is 1 << osh. */
  method AutoAdjust(num: u32) returns (bsh: u32, scale: u32, ghost k: nat)
    requires num <= 0x4000_0000
    ensures k <= 8 && bsh as int == Pow2(14 + 2 * k) && scale as int == Pow2(k) && num <= bsh
    ensures k == 0 <==> num <= 0x4000
  {
    hide Pow2;
    bsh, scale, k := 0x4000, 1, 0;
    Pow2Of30();
    while num > bsh
      invariant k <= 8 && bsh as int == Pow2(14 + 2 * k) && scale as int == Pow2(k)
      invariant k > 0 ==> num > 0x4000
      decreases 8 - k
    {
      Pow2Monotone(14 + 2 * k, 30);
      NextScale(k);
      bsh, scale := bsh * 4, scale * 2;
      k := k + 1;
    }
  }

  /** The low eight bits of `F`, which is 256 times the root of `num`: rounded down, to an
      even number when `num` is at most 0x4000. */
  method SqrtFraction(num: u32) returns (fraction: u8, ghost F: int)
    ensures num > 0x4000_0000 ==> fraction == 0
    ensures num <= 0x4000_0000 ==> F >= 0 && fraction as int == F % 256 && F * F <= 0x1_0000 * num as int
    ensures 0x4000 < num <= 0x4000_0000 ==> 0x1_0000 * num as int < (F + 1) * (F + 1)
    ensures num <= 0x4000 ==> F % 2 == 0 && 0x1_0000 * num as int < (F + 2) * (F + 2)
  {
    hide Pow2;
    fraction, F := 0, 0;
    if num > 0x4000_0000 {
      return;
    }
    var bsh, scale;
    ghost var k;
    bsh, scale, k := AutoAdjust(num);
    var fpr;
    ghost var q;
    fpr, q := RootBits(num, bsh, 14 + 2 * k);
    var shifted := fpr / scale;
    F := shifted as int;
    Unscaled(num as int, q, k, F);
    fraction := (shifted % 256) as u8;
  }

  lemma {:induction false} Unscaled(n: int, q: int, k: nat, f: int)
    requires q >= 0 && f == 2 * q / Pow2(k) && q * q <= n * Pow2(14 + 2 * k) < (q + 1) * (q + 1)
    ensures f >= 0 && f * f <= 0x1_0000 * n
    ensures k == 0 ==> 0x1_0000 * n < (f + 2) * (f + 2) && f % 2 == 0
    ensures k > 0 ==> 0x1_0000 * n < (f + 1) * (f + 1)
  {
    ScaleSquared(k);
    RoundedDown(q, Pow2(k), f);
    ScaledBack(n, q, Pow2(k), f);
  }

  lemma {:induction false} ScaleSquared(k: nat)
    ensures Pow2(14 + 2 * k) == 0x4000 * (Pow2(k) * Pow2(k))
    ensures k > 0 ==> Pow2(k) % 2 == 0
  {
    hide Pow2;
    Pow2Of30();
    Pow2Add(14, 2 * k);
    Pow2Add(k, k);
    if k > 0 {
      Pow2Even(k);
    }
  }

  lemma {:induction false} Pow2Even(k: nat)
    requires k > 0
    ensures Pow2(k) % 2 == 0
  {
    hide Pow2;
    Doubles(k - 1);
  }
}
