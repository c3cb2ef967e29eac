/**
 The ring buffer of the application tracing module. A chunk is always handed out
 as one contiguous piece of the storage, so the write pointer may wrap before the
 end of the storage; the part that is skipped is cut off by shrinking `curSize`
 until the read pointer wraps as well.
 */
module Ring {
  import opened Bytes

  /** The bytes of `d` from `lo` to `hi`, then the first `wrapped` ones. */
  ghost function Wrapped(d: seq<byte>, lo: nat, hi: nat, wrapped: nat): (s: seq<byte>)
    requires lo <= hi <= |d| && wrapped <= |d|
    ensures |s| == hi - lo + wrapped
  {
    d[lo..hi] + d[..wrapped]
  }

  lemma WrappedDropsFront(d: seq<byte>, lo: nat, mid: nat, hi: nat, wrapped: nat)
    requires lo <= mid <= hi <= |d| && wrapped <= |d|
    ensures Wrapped(d, lo, hi, wrapped) == d[lo..mid] + Wrapped(d, mid, hi, wrapped)
  {
    assert d[lo..hi] == d[lo..mid] + d[mid..hi];
  }

  lemma WrappedFromStart(d: seq<byte>, hi: nat, wrapped: nat)
    requires wrapped <= hi <= |d|
    ensures Wrapped(d, hi, hi, wrapped) == Wrapped(d, 0, wrapped, 0) == d[..wrapped]
  {
  }

  lemma WrappedGrowsEnd(d: seq<byte>, lo: nat, hi: nat, n: nat)
    requires lo <= hi <= hi + n <= |d|
    ensures Wrapped(d, lo, hi + n, 0) == Wrapped(d, lo, hi, 0) + d[hi..hi + n]
  {
    assert d[lo..hi + n] == d[lo..hi] + d[hi..hi + n];
  }

  lemma WrappedGrowsFront(d: seq<byte>, lo: nat, hi: nat, wrapped: nat, n: nat)
    requires lo <= hi <= |d| && wrapped + n <= |d|
    ensures Wrapped(d, lo, hi, wrapped + n) == Wrapped(d, lo, hi, wrapped) + d[wrapped..wrapped + n]
  {
    assert d[..wrapped + n] == d[..wrapped] + d[wrapped..wrapped + n];
  }

  lemma WrappedRestarts(d: seq<byte>, lo: nat, hi: nat, n: nat)
    requires lo <= hi <= |d| && n <= |d|
    ensures Wrapped(d, lo, hi, n) == Wrapped(d, lo, hi, 0) + d[0..n]
    ensures lo == hi ==> Wrapped(d, 0, n, 0) == Wrapped(d, lo, hi, 0) + d[0..n]
  {
  }

  lemma WrappedSplice(d: seq<byte>, lo: nat, hi: nat, wrapped: nat, at: nat, bs: seq<byte>)
    requires wrapped <= lo <= hi <= |d| && at + |bs| <= |d|
    ensures at + |bs| <= wrapped ==>
              Wrapped(Splice(d, at, bs), lo, hi, wrapped) == Splice(Wrapped(d, lo, hi, wrapped), hi - lo + at, bs)
    ensures lo <= at && at + |bs| <= hi ==>
              Wrapped(Splice(d, at, bs), lo, hi, wrapped) == Splice(Wrapped(d, lo, hi, wrapped), at - lo, bs)
  {
    hide Splice;
    if at + |bs| <= wrapped {
      SpliceOutside(d, at, bs, lo, hi);
      SpliceInside(d, at, bs, 0, wrapped);
      SpliceRight(d[lo..hi], d[0..wrapped], at, bs);
      FromStart(d, wrapped);
      FromStart(Splice(d, at, bs), wrapped);
    }
    if lo <= at && at + |bs| <= hi {
      SpliceInside(d, at, bs, lo, hi);
      SpliceOutside(d, at, bs, 0, wrapped);
      SpliceLeft(d[lo..hi], d[0..wrapped], at - lo, bs);
      FromStart(d, wrapped);
      FromStart(Splice(d, at, bs), wrapped);
    }
  }

  lemma FromStart(d: seq<byte>, n: nat)
    requires n <= |d|
    ensures d[0..n] == d[..n]
  {
  }

  lemma WrappedPart(d: seq<byte>, lo: nat, hi: nat, wrapped: nat, p: nat, n: nat)
    requires lo <= hi <= |d| && wrapped <= |d|
    ensures p + n <= wrapped ==> Wrapped(d, lo, hi, wrapped)[hi - lo + p..hi - lo + p + n] == d[p..p + n]
    ensures lo <= p && p + n <= hi ==> Wrapped(d, lo, hi, wrapped)[p - lo..p - lo + n] == d[p..p + n]
  {
    var x, y := d[lo..hi], d[..wrapped];
    if p + n <= wrapped {
      PartOfRight(x, y, p, n);
      FromStart(d, wrapped);
      SliceOfSlice(d, 0, wrapped, p, n);
    }
    if lo <= p && p + n <= hi {
      PartOfLeft(x, y, p - lo, n);
      SliceOfSlice(d, lo, hi, p - lo, n);
    }
  }

  class RingBuffer {
    const data: array<byte>
    var curSize: nat
    var rd: nat
    var wr: nat

    ghost predicate Valid()
      reads this
    {
      if rd <= wr then
        && curSize == data.Length
        && (wr < data.Length || data.Length == wr == 0)
      else
        rd < curSize <= data.Length
    }

    /** Whether storage position `i` holds a queued byte. */
    ghost predicate Live(i: int)
      reads this
    {
      if rd <= wr then rd <= i < wr else 0 <= i < wr || rd <= i < curSize
    }

    ghost function End(): (e: nat)
      reads this
    {
      if rd <= wr then wr else curSize
    }

    /** How many bytes are queued. */
    ghost function Count(): (n: nat)
      requires Valid()
      reads this
    {
      if rd <= wr then wr - rd else curSize - rd + wr
    }

    /** The queued bytes, the oldest first: each live position once. */
    ghost function Contents(): (s: seq<byte>)
      requires Valid()
      reads this, data
      ensures |s| == Count()
    {
      Wrapped(data[..], rd, End(), if rd <= wr then 0 else wr)
    }

    /** How many bytes the queue may hold: one position always stays unused. */
    ghost function Cap(): nat {
      if data.Length == 0 then 0 else data.Length - 1
    }

    /** How many more bytes the queue may hold. */
    ghost function Free(): (n: nat)
      requires Valid()
      reads this, data
    {
      Cap() - |Contents()|
    }

    /** Whether `n` contiguous bytes can be handed out: at the write pointer, or at
        the start of the storage, in both cases short of the read pointer. */
    ghost predicate CanPlace(n: nat)
      reads this
    {
      if rd <= wr then
        wr + n < data.Length || (wr + n == data.Length && 0 < rd) || n < rd
      else
        wr + n < rd
    }

    /** Whether the `n` storage bytes from `p` on are the queued ones from position `q` on. */
    ghost predicate Holds(p: int, n: nat, q: int)
      reads this
    {
      if rd <= wr then rd <= p && p + n <= wr && q == p - rd
      else (rd <= p && p + n <= curSize && q == p - rd) || (0 <= p && p + n <= wr && q == curSize - rd + p)
    }

    /** Bytes were only added: what was queued still lies where it was. */
    twostate predicate Extends()
      reads this
    {
      && rd == old(rd)
      && if old(rd <= wr) then old(wr) <= (if rd <= wr then wr else curSize)
         else rd > wr && curSize == old(curSize) && old(wr) <= wr
    }

    constructor (storage: array<byte>)
      ensures Valid() && data == storage && curSize == storage.Length
      ensures Contents() == [] && rd == wr
    {
      data := storage;
      curSize, rd, wr := storage.Length, 0, 0;
    }

    /** Wraps the write pointer before the end of the storage: what is skipped is cut off until
        the read pointer wraps too. */
    method WrapEarly(n: nat)
      requires Valid() && rd <= wr && data.Length < wr + n && n < rd
      modifies this
      ensures Valid() && Holds(0, n, old(Count()))
      ensures old(rd) < old(wr) ==> Extends()
      ensures Contents() == old(Contents()) + data[0..n]
    {
      hide Wrapped;
      ghost var d := data[..];
      WrappedRestarts(d, rd, wr, n);
      curSize := wr;
      wr := 0;
      if rd == curSize {
        rd := 0;
        if curSize < data.Length {
          curSize := data.Length;
        }
      }
      wr := wr + n;
      assert data[..] == d;
    }

    /** Bytes at the write pointer, up to the end of the storage. */
    method ExtendUp(n: nat)
      requires Valid() && rd <= wr && (wr + n < data.Length || (wr + n == data.Length && 0 < rd))
      modifies this`wr
      ensures Valid() && Extends() && Holds(old(wr), n, old(Count()))
      ensures Contents() == old(Contents()) + data[old(wr)..old(wr) + n]
    {
      hide Wrapped;
      ghost var d := data[..];
      WrappedGrowsEnd(d, rd, wr, n);
      wr := if wr + n == data.Length then 0 else wr + n;
      assert data[..] == d;
    }

    /** Bytes at the write pointer, short of the read pointer ahead of it. */
    method ExtendBehind(n: nat)
      requires Valid() && wr < rd && wr + n < rd
      modifies this`wr
      ensures Valid() && Extends() && Holds(old(wr), n, old(Count()))
      ensures Contents() == old(Contents()) + data[old(wr)..old(wr) + n]
    {
      hide Wrapped;
      ghost var d := data[..];
      WrappedGrowsFront(d, rd, curSize, wr, n);
      wr := wr + n;
      assert data[..] == d;
    }

    method Produce(n: nat) returns (r: Option<nat>)
      requires Valid()
      modifies this
      ensures Valid()
      ensures r.Some? <==> old(CanPlace(n))
      ensures r.None? ==> unchanged(this)
      ensures r.Some? ==> r.value + n <= data.Length
      ensures r.Some? ==> forall i :: r.value <= i < r.value + n ==> !old(Live(i))
      ensures r.Some? && 0 < n ==> Holds(r.value, n, old(Count()))
      ensures old(rd) != old(wr) ==> Extends()
      ensures curSize != old(curSize) ==> old(rd <= wr && data.Length < wr + n)
      ensures r.Some? ==> Contents() == old(Contents()) + data[r.value..r.value + n]
    {
      hide Contents;
      var ptr := wr;
      if rd <= wr {
        if wr + n >= data.Length {
          if rd == 0 {
            return None;
          }
          if wr + n == data.Length {
            ExtendUp(n);
          } else {
            if n > rd - 1 {
              return None;
            }
            WrapEarly(n);
            ptr := 0;
          }
        } else {
          ExtendUp(n);
        }
      } else {
        if n > rd - wr - 1 {
          return None;
        }
        ExtendBehind(n);
      }
      r := Some(ptr);
    }

    lemma HoldsPart(p: nat, n: nat, q: nat, m: nat)
      requires Holds(p, n, q) && m <= n
      ensures Holds(p, m, q)
    {
    }

    lemma HoldsBytes(p: nat, n: nat, q: nat)
      requires Valid() && Holds(p, n, q)
      ensures q + n <= |Contents()| && p + n <= data.Length
      ensures Contents()[q..q + n] == data[p..p + n]
    {
      WrappedPart(data[..], rd, End(), if rd <= wr then 0 else wr, p, n);
      assert data[p..p + n] == data[..][p..p + n];
    }

    /** A caller filling in part of a chunk it was handed. */
    method Poke(p: nat, ghost n: nat, ghost q: nat, off: nat, bs: seq<byte>)
      requires Valid() && Holds(p, n, q) && off + |bs| <= n
      modifies data
      ensures Valid() && Holds(p, n, q)
      ensures q + n <= |Contents()| == |old(Contents())|
      ensures Contents() == Splice(old(Contents()), q + off, bs)
      ensures data[..] == Splice(old(data[..]), p + off, bs)
    {
      hide Wrapped, Splice;
      WrappedSplice(data[..], rd, End(), if rd <= wr then 0 else wr, p + off, bs);
      Copy(data, p + off, bs);
    }

    method Consume(n: nat) returns (r: Option<nat>)
      requires Valid()
      modifies this
      ensures Valid()
      ensures r.Some? <==> n <= old(ReadSize())
      ensures r.Some? <==> forall i :: old(rd) <= i < old(rd) + n ==> old(Live(i))
      ensures r.None? ==> unchanged(this)
      ensures r.Some? ==> r.value + n <= data.Length
      ensures r.Some? ==> forall i :: r.value <= i < r.value + n ==> old(Live(i))
      ensures curSize == old(curSize) || curSize == data.Length
      ensures n == old(ReadSize()) ==> rd == wr || rd == 0
      ensures r.Some? ==> old(Contents()) == data[r.value..r.value + n] + Contents()
    {
      hide Wrapped;
      ghost var d := data[..];
      var ptr := rd;
      if rd <= wr {
        if rd + n > wr {
          assert !Live(wr);
          return None;
        }
        WrappedDropsFront(d, rd, rd + n, wr, 0);
        rd := rd + n;
      } else {
        if rd + n > curSize {
          assert !Live(curSize);
          return None;
        }
        WrappedDropsFront(d, rd, rd + n, curSize, wr);
        if rd + n == curSize {
          WrappedFromStart(d, curSize, wr);
          if curSize < data.Length {
            curSize := data.Length;
          }
          rd := 0;
        } else {
          rd := rd + n;
        }
      }
      assert data[..] == d;
      r := Some(ptr);
    }

    function ReadSize(): (n: nat)
      requires Valid()
      reads this, data
      ensures n == 0 <==> Contents() == []
      ensures n == 0 <==> rd == wr
      ensures n <= |Contents()|
    {
      if rd <= wr then wr - rd else curSize - rd
    }

    /** The read size is how many queued bytes lie in one piece from the read pointer on. */
    lemma ReadSizeIs(n: nat)
      requires Valid()
      ensures n == ReadSize() <==> (forall i :: rd <= i < rd + n ==> Live(i)) && !Live(rd + n)
    {
      var m := ReadSize();
      assert !Live(rd + m) && forall i :: rd <= i < rd + m ==> Live(i);
    }

    /** Where a pointer is that was moved on to `i`. */
    ghost function Landing(i: nat): nat {
      if i == data.Length then 0 else i
    }

    /** The write pointer can be moved on by `n` inside the storage, without coming to the read pointer. */
    ghost predicate CanAdvance(n: nat)
      reads this`rd, this`wr
    {
      wr + n <= data.Length && forall k :: wr < k <= wr + n ==> Landing(k) != rd
    }

    /** Bytes can be placed at the write pointer, or at the start of the storage, if the pointer
        does not come to the read pointer on the way. */
    lemma CanPlaceIs(n: nat)
      requires Valid() && 0 < n
      ensures CanPlace(n) <==> CanAdvance(n) || (rd <= wr && forall k :: 0 <= k <= n ==> Landing(k) != rd)
    {
      AdvanceIs(n);
      if rd <= wr && rd <= n {
        assert Landing(rd) == rd;
      }
    }

    lemma AdvanceIs(n: nat)
      requires Valid() && 0 < n
      ensures CanAdvance(n) <==> if rd <= wr then wr + n < data.Length || (wr + n == data.Length && 0 < rd) else wr + n < rd
    {
      if rd <= wr {
        assert wr < wr + n <= wr + n;
        assert Landing(wr + n) == if wr + n == data.Length then 0 else wr + n;
      } else if rd <= wr + n {
        assert wr < rd <= wr + n && Landing(rd) == rd;
      }
    }

    /** The write size is how far the write pointer can be moved on. */
    lemma WriteSizeIs(n: nat)
      requires Valid()
      ensures n == WriteSize() <==> CanAdvance(n) && !CanAdvance(n + 1)
    {
      var m := WriteSize();
      assert CanAdvance(m);
      assert !CanAdvance(m + 1) by {
        if wr + m + 1 <= data.Length {
          assert Landing(wr + m + 1) == rd;
        }
      }
      if n > m && CanAdvance(n) {
        AdvanceLess(n, m + 1);
      }
      if n < m {
        AdvanceLess(m, n + 1);
      }
    }

    lemma AdvanceLess(n: nat, m: nat)
      requires CanAdvance(n) && m <= n
      ensures CanAdvance(m)
    {
    }

    function WriteSize(): (n: nat)
      requires Valid()
      reads this, data
      ensures forall m :: 0 < m <= n ==> CanPlace(m)
      ensures n <= Free()
      ensures n == 0 && curSize == data.Length ==> Free() == 0
    {
      if rd <= wr then
        var n := data.Length - wr;
        if n > 0 && rd == 0 then n - 1 else n
      else
        rd - wr - 1
    }
  }
}
