/**
 Bytes, and the little-endian words that the trace protocol and the DFU writer
 put on the wire.
 */
module Bytes {

  type byte = b: int | 0 <= b < 256

  datatype Option<+T> = None | Some(value: T)

  /** `s` with the bytes from position `at` on overwritten by `bs`. */
  function Splice(s: seq<byte>, at: nat, bs: seq<byte>): (r: seq<byte>)
    requires at + |bs| <= |s|
    ensures |r| == |s|
  {
    s[..at] + bs + s[at + |bs|..]
  }

  lemma SpliceRight(a: seq<byte>, b: seq<byte>, at: nat, bs: seq<byte>)
    requires at + |bs| <= |b|
    ensures Splice(a + b, |a| + at, bs) == a + Splice(b, at, bs)
  {
    assert (a + b)[..|a| + at] == a + b[..at];
    assert (a + b)[|a| + at + |bs|..] == b[at + |bs|..];
  }

  lemma SpliceLeft(a: seq<byte>, b: seq<byte>, at: nat, bs: seq<byte>)
    requires at + |bs| <= |a|
    ensures Splice(a + b, at, bs) == Splice(a, at, bs) + b
  {
    assert (a + b)[at + |bs|..] == a[at + |bs|..] + b;
  }

  lemma SpliceAt(s: seq<byte>, at: nat, bs: seq<byte>, i: nat)
    requires at + |bs| <= |s| && i < |s|
    ensures Splice(s, at, bs)[i] == if at <= i < at + |bs| then bs[i - at] else s[i]
  {
  }

  /** A piece of a piece. */
  lemma SliceOfSlice(d: seq<byte>, lo: nat, hi: nat, a: nat, n: nat)
    requires lo + a + n <= hi <= |d|
    ensures d[lo..hi][a..a + n] == d[lo + a..lo + a + n]
  {
    var x, y := d[lo..hi][a..a + n], d[lo + a..lo + a + n];
    assert |x| == |y| && forall i :: 0 <= i < n ==> x[i] == y[i];
  }

  /** Overwriting elsewhere leaves a piece alone. */
  lemma SpliceOutside(s: seq<byte>, at: nat, bs: seq<byte>, lo: nat, hi: nat)
    requires at + |bs| <= |s| && lo <= hi <= |s| && (hi <= at || at + |bs| <= lo)
    ensures Splice(s, at, bs)[lo..hi] == s[lo..hi]
  {
    hide Splice;
    var x, y := Splice(s, at, bs)[lo..hi], s[lo..hi];
    forall i | 0 <= i < |x| ensures x[i] == y[i] {
      SpliceAt(s, at, bs, lo + i);
    }
  }

  /** Overwriting inside a piece. */
  lemma SpliceInside(s: seq<byte>, at: nat, bs: seq<byte>, lo: nat, hi: nat)
    requires lo <= at && at + |bs| <= hi <= |s|
    ensures Splice(s, at, bs)[lo..hi] == Splice(s[lo..hi], at - lo, bs)
  {
    hide Splice;
    var x, y := Splice(s, at, bs)[lo..hi], Splice(s[lo..hi], at - lo, bs);
    forall i | 0 <= i < |x| ensures x[i] == y[i] {
      SpliceAt(s, at, bs, lo + i);
      SpliceAt(s[lo..hi], at - lo, bs, i);
    }
  }

  /** Overwriting on where the last overwriting ended. */
  lemma SpliceOn(s: seq<byte>, at: nat, bs: seq<byte>, more: seq<byte>)
    requires at + |bs| + |more| <= |s|
    ensures Splice(Splice(s, at, bs), at + |bs|, more) == Splice(s, at, bs + more)
  {
    hide Splice;
    var x, y := Splice(Splice(s, at, bs), at + |bs|, more), Splice(s, at, bs + more);
    forall i | 0 <= i < |x| ensures x[i] == y[i] {
      SpliceAt(Splice(s, at, bs), at + |bs|, more, i);
      SpliceAt(s, at, bs, i);
      SpliceAt(s, at, bs + more, i);
    }
  }

  lemma SpliceHas(s: seq<byte>, at: nat, bs: seq<byte>)
    requires at + |bs| <= |s|
    ensures Splice(s, at, bs)[at..at + |bs|] == bs
  {
    hide Splice;
    var x := Splice(s, at, bs)[at..at + |bs|];
    forall i | 0 <= i < |x| ensures x[i] == bs[i] {
      SpliceAt(s, at, bs, at + i);
    }
  }

  lemma SpliceTail(a: seq<byte>, b: seq<byte>, bs: seq<byte>)
    requires |b| == |bs|
    ensures Splice(a + b, |a|, bs) == a + bs
  {
  }

  lemma PartOfLeft(a: seq<byte>, b: seq<byte>, at: nat, n: nat)
    requires at + n <= |a|
    ensures (a + b)[at..at + n] == a[at..at + n]
  {
    var x, y := (a + b)[at..at + n], a[at..at + n];
    assert |x| == |y| && forall i :: 0 <= i < n ==> x[i] == y[i];
  }

  lemma PartOfRight(a: seq<byte>, b: seq<byte>, at: nat, n: nat)
    requires at + n <= |b|
    ensures (a + b)[|a| + at..|a| + at + n] == b[at..at + n]
  {
    var x, y := (a + b)[|a| + at..|a| + at + n], b[at..at + n];
    assert |x| == |y| && forall i :: 0 <= i < n ==> x[i] == y[i];
  }

  lemma TakeMore(s: seq<byte>, n: nat, more: nat)
    requires n + more <= |s|
    ensures s[..n + more] == s[..n] + s[n..n + more]
  {
  }

  lemma Associates(a: seq<byte>, b: seq<byte>, c: seq<byte>)
    ensures (a + b) + c == a + (b + c)
  {
  }

  /** Copies `bs` into `a` at `at`. */
  method Copy(a: array<byte>, at: nat, bs: seq<byte>)
    requires at + |bs| <= a.Length
    modifies a
    ensures a[..] == Splice(old(a[..]), at, bs)
  {
    hide Splice;
    ghost var before := a[..];
    SpliceNothing(before, at);
    var i := 0;
    assert bs[..0] == [];
    while i < |bs|
      invariant 0 <= i <= |bs|
      invariant a[..] == Splice(before, at, bs[..i])
    {
      SpliceGrows(before, at, bs, i);
      ghost var now := a[..];
      a[at + i] := bs[i];
      assert a[..] == now[at + i := bs[i]];
      i := i + 1;
    }
    assert bs[..i] == bs;
  }

  lemma SpliceNothing(s: seq<byte>, at: nat)
    requires at <= |s|
    ensures Splice(s, at, []) == s
  {
  }

  lemma SpliceGrows(s: seq<byte>, at: nat, bs: seq<byte>, i: nat)
    requires at + |bs| <= |s| && i < |bs|
    ensures Splice(s, at, bs[..i])[at + i := bs[i]] == Splice(s, at, bs[..i + 1])
  {
  }

  function Le16(v: nat): (bs: seq<byte>)
    requires v < 0x1_0000
    ensures |bs| == 2
  {
    [v % 256, v / 256]
  }

  function FromLe16(bs: seq<byte>): (v: nat)
    requires |bs| == 2
    ensures v < 0x1_0000 && Le16(v) == bs
  {
    var lo: int, hi: int := bs[0], bs[1];
    lo + 256 * hi
  }

  function Le32(v: nat): (bs: seq<byte>)
    requires v < 0x1_0000_0000
    ensures |bs| == 4
  {
    Le16(v % 0x1_0000) + Le16(v / 0x1_0000)
  }

  function FromLe32(bs: seq<byte>): (v: nat)
    requires |bs| == 4
    ensures v < 0x1_0000_0000 && Le32(v) == bs
  {
    var lo, hi := FromLe16(bs[..2]), FromLe16(bs[2..]);
    HalvesOf(lo, hi);
    assert bs == bs[..2] + bs[2..];
    lo + 0x1_0000 * hi
  }

  lemma HalvesOf(lo: nat, hi: nat)
    requires lo < 0x1_0000
    ensures (lo + 0x1_0000 * hi) % 0x1_0000 == lo && (lo + 0x1_0000 * hi) / 0x1_0000 == hi
  {
  }

  /** The bytes of a word stand with the low one first. */
  lemma Le16Is(v: nat)
    requires v < 0x1_0000
    ensures var bs := Le16(v); var lo: int, hi: int := bs[0], bs[1]; lo + 256 * hi == v
  {
  }

  lemma Le32Is(v: nat)
    requires v < 0x1_0000_0000
    ensures var bs := Le32(v);
            var b0: int, b1: int, b2: int, b3: int := bs[0], bs[1], bs[2], bs[3];
            b0 + 0x100 * b1 + 0x1_0000 * b2 + 0x100_0000 * b3 == v
  {
    Le16Is(v % 0x1_0000);
    Le16Is(v / 0x1_0000);
  }

  lemma Le16Injective(v: nat)
    requires v < 0x1_0000
    ensures FromLe16(Le16(v)) == v
  {
  }

  lemma Le32Injective(v: nat)
    requires v < 0x1_0000_0000
    ensures FromLe32(Le32(v)) == v
  {
    assert Le32(v)[..2] == Le16(v % 0x1_0000);
    assert Le32(v)[2..] == Le16(v / 0x1_0000);
  }
}
