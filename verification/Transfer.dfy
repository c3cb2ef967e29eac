/**
 The two loops that move bytes between a memory block and a ring buffer.
 */
module Transfer {
  import opened Bytes
  import opened Ring

  function Min(a: nat, b: nat): nat {
    if a <= b then a else b
  }

  /** One chunk that the write size promised room for: producing cannot fail. */
  method AppendChunk(rb: RingBuffer, chunk: seq<byte>)
    requires rb.Valid() && 0 < |chunk| <= rb.WriteSize()
    modifies rb, rb.data
    ensures rb.Valid() && rb.curSize == old(rb.curSize)
    ensures rb.Contents() == old(rb.Contents()) + chunk
  {
    hide rb.Contents, rb.Holds, rb.Live, Splice;
    ghost var queued := rb.Contents();
    var r := rb.Produce(|chunk|);
    SpliceTail(queued, rb.data[r.value..r.value + |chunk|], chunk);
    rb.Poke(r.value, |chunk|, |queued|, 0, chunk);
  }

  /** Host data goes into the down ring: as much of it as there is room for. The
      ring never has to shrink, so no room is lost at the wrap. */
  method DownBufferWrite(rb: RingBuffer, src: seq<byte>) returns (total: nat)
    requires rb.Valid() && rb.curSize == rb.data.Length
    modifies rb, rb.data
    ensures rb.Valid() && rb.curSize == rb.data.Length
    ensures total == Min(|src|, old(rb.Free()))
    ensures rb.Contents() == old(rb.Contents()) + src[..total]
  {
    hide rb.Contents, rb.CanPlace, rb.WriteSize;
    total := 0;
    ghost var before := rb.Contents();
    while total < |src|
      invariant total <= |src|
      invariant rb.Valid() && rb.curSize == rb.data.Length
      invariant rb.Free() + total == old(rb.Free())
      invariant rb.Contents() == before + src[..total]
    {
      var n := rb.WriteSize();
      if n == 0 {
        break;
      }
      if n > |src| - total {
        n := |src| - total;
      }
      AppendChunk(rb, src[total..total + n]);
      TakeMore(src, total, n);
      Associates(before, src[..total], src[total..total + n]);
      total := total + n;
    }
  }

  /** Pended bytes go to the start of a block: the oldest ones, until the block is
      full or no byte is left. */
  method PumpPending(rb: RingBuffer, blk: array<byte>) returns (marker: nat)
    requires rb.Valid() && blk != rb.data
    modifies rb, blk
    ensures rb.Valid()
    ensures marker == Min(blk.Length, old(|rb.Contents()|))
    ensures blk[..marker] + rb.Contents() == old(rb.Contents())
  {
    hide rb.Contents;
    marker := 0;
    while marker < blk.Length
      invariant marker <= blk.Length
      invariant rb.Valid()
      invariant blk[..marker] + rb.Contents() == old(rb.Contents())
      decreases |rb.Contents()|
    {
      var n := rb.ReadSize();
      if n == 0 {
        break;
      }
      if n > blk.Length - marker {
        n := blk.Length - marker;
      }
      var r := rb.Consume(n);
      assert r.Some?;
      ghost var done := blk[..marker];
      Copy(blk, marker, rb.data[r.value..r.value + n]);
      assert blk[..marker + n] == done + rb.data[r.value..r.value + n];
      marker := marker + n;
    }
  }
}
