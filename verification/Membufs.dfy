/**
 The memory-buffer trace protocol. Two blocks of memory take turns: the application
 fills one while the host reads the other. Packets that do not fit wait in a pending
 ring; data from the host arrives in the blocks and is kept in the down ring.

 The hardware hooks and the clock are answers read from finite tapes: a run that ends
 consults only finitely many of them, and every finite tape is allowed. Callers hold
 the module's lock, so operations do not overlap.
 */
module Membufs {
  import opened Bytes
  import opened Ring
  import opened Transfer
  import opened Packets

  /** How far behind a block its first word can reach. */
  const REACH: nat := 0x1_0000

  /** The hardware's answer to a request to swap blocks: the host is still busy, or its block
      comes back with `left` in it, and `pending` tells whether that is data for us. What then
      lies in memory behind the block is `behind`. */
  datatype SwapAnswer = Busy | Ready(left: seq<byte>, behind: seq<byte>, pending: bool) {
    ghost predicate Sized(size: nat) {
      Ready? ==> |left| == size && |behind| == REACH
    }

    /** The bytes that are taken for what the host has sent: as many as the first word of the
        block says, from the second word on. Nothing compares that with the size of the block. */
    ghost function Chunk(): (chunk: seq<byte>) {
      if Ready? && pending && 2 <= |left| && |behind| == REACH then (left + behind)[2..2 + FromLe16(left[..2])] else []
    }
  }

  /** The bytes that the block's first word announces are in the block. */
  ghost predicate FitsBlock(left: seq<byte>) {
    2 <= |left| && 2 + FromLe16(left[..2]) <= |left|
  }

  /** Only bytes of the block are taken exactly if those that are announced are in it. */
  lemma OnlyFromBlock(a: SwapAnswer, size: nat)
    requires a.Ready? && a.pending && a.Sized(size) && 2 <= size
    ensures FitsBlock(a.left) <==> |a.Chunk()| <= size - 2
    ensures FitsBlock(a.left) ==> a.Chunk() == a.left[2..2 + FromLe16(a.left[..2])]
    ensures !FitsBlock(a.left) ==> a.Chunk() == a.left[2..] + a.behind[..2 + FromLe16(a.left[..2]) - size]
  {
    var len := FromLe16(a.left[..2]);
    if FitsBlock(a.left) {
      PartOfLeft(a.left, a.behind, 2, len);
    } else {
      var k := 2 + len - size;
      assert (a.left + a.behind)[2..size + k] == a.left[2..] + a.behind[..k];
    }
  }

  /** The start of a chunk, as much of it as there is room for. */
  ghost function Part(chunk: seq<byte>, room: nat): (r: seq<byte>)
    ensures |r| <= room && |r| <= |chunk|
  {
    chunk[..Min(|chunk|, room)]
  }

  /** What a queue for `cap` bytes takes of chunks that arrive one after the other: of each, as
      much as there is room for, where `readBefore[i]` bytes in all were read before chunk `i` came. */
  ghost function Taken(cap: nat, chunks: seq<seq<byte>>, readBefore: seq<nat>): (s: seq<byte>)
    requires |chunks| == |readBefore|
  {
    if chunks == [] then []
    else
      var n := |chunks| - 1;
      var before := Taken(cap, chunks[..n], readBefore[..n]);
      var room := if |before| < cap + readBefore[n] then cap + readBefore[n] - |before| else 0;
      before + Part(chunks[n], room)
  }

  ghost function Joined(chunks: seq<seq<byte>>): (s: seq<byte>) {
    if chunks == [] then [] else Joined(chunks[..|chunks| - 1]) + chunks[|chunks| - 1]
  }

  lemma TakenNext(cap: nat, chunks: seq<seq<byte>>, readBefore: seq<nat>, chunk: seq<byte>, read: nat, free: nat)
    requires |chunks| == |readBefore| && |Taken(cap, chunks, readBefore)| + free == cap + read
    ensures Taken(cap, chunks + [chunk], readBefore + [read]) == Taken(cap, chunks, readBefore) + Part(chunk, free)
  {
    assert (chunks + [chunk])[..|chunks|] == chunks && (readBefore + [read])[..|chunks|] == readBefore;
  }

  lemma {:induction false} TakenGrows(cap: nat, chunks: seq<seq<byte>>, readBefore: seq<nat>, k: nat)
    requires k <= |chunks| == |readBefore|
    ensures Taken(cap, chunks[..k], readBefore[..k]) <= Taken(cap, chunks, readBefore)
    decreases |chunks|
  {
    var n := |chunks| - 1;
    if k <= n {
      TakenGrows(cap, chunks[..n], readBefore[..n], k);
      assert chunks[..n][..k] == chunks[..k] && readBefore[..n][..k] == readBefore[..k];
    } else {
      assert chunks[..k] == chunks && readBefore[..k] == readBefore;
    }
  }

  /** There was room for every chunk when it came. */
  ghost predicate AllFit(cap: nat, chunks: seq<seq<byte>>, readBefore: seq<nat>)
    requires |chunks| == |readBefore|
  {
    forall i :: 0 <= i < |chunks| ==> FitsAt(cap, chunks, readBefore, i)
  }

  ghost predicate FitsAt(cap: nat, chunks: seq<seq<byte>>, readBefore: seq<nat>, i: nat)
    requires i < |chunks| == |readBefore|
  {
    chunks[i] != [] ==> |Joined(chunks[..i + 1])| <= cap + readBefore[i]
  }

  /** Nothing the host sent is lost exactly if there was room for each chunk when it came. */
  lemma {:induction false} TakenIsAll(cap: nat, chunks: seq<seq<byte>>, readBefore: seq<nat>)
    requires |chunks| == |readBefore|
    ensures |Taken(cap, chunks, readBefore)| <= |Joined(chunks)|
    ensures Taken(cap, chunks, readBefore) == Joined(chunks) <==> AllFit(cap, chunks, readBefore)
  {
    if chunks != [] {
      var n := |chunks| - 1;
      TakenIsAll(cap, chunks[..n], readBefore[..n]);
      AllFitNext(cap, chunks, readBefore);
      SameEnds(Taken(cap, chunks[..n], readBefore[..n]), Joined(chunks[..n]), chunks[n], |Taken(cap, chunks, readBefore)| - |Taken(cap, chunks[..n], readBefore[..n])|);
      assert chunks[..n + 1] == chunks;
    }
  }

  lemma AllFitNext(cap: nat, chunks: seq<seq<byte>>, readBefore: seq<nat>)
    requires |chunks| == |readBefore| > 0
    ensures var n := |chunks| - 1;
            AllFit(cap, chunks, readBefore) <==>
            AllFit(cap, chunks[..n], readBefore[..n]) && (chunks[n] != [] ==> |Joined(chunks)| <= cap + readBefore[n])
  {
    var n := |chunks| - 1;
    FitsAtLast(cap, chunks, readBefore);
    hide FitsAt;
    forall i | 0 <= i < n ensures FitsAt(cap, chunks[..n], readBefore[..n], i) <==> FitsAt(cap, chunks, readBefore, i) {
      FitsAtInit(cap, chunks, readBefore, i);
    }
  }

  lemma FitsAtLast(cap: nat, chunks: seq<seq<byte>>, readBefore: seq<nat>)
    requires |chunks| == |readBefore| > 0
    ensures var n := |chunks| - 1;
            FitsAt(cap, chunks, readBefore, n) <==> (chunks[n] != [] ==> |Joined(chunks)| <= cap + readBefore[n])
  {
    hide Joined;
    assert chunks[..|chunks|] == chunks;
  }

  lemma FitsAtInit(cap: nat, chunks: seq<seq<byte>>, readBefore: seq<nat>, i: nat)
    requires i < |chunks| - 1 && |readBefore| == |chunks|
    ensures var n := |chunks| - 1; FitsAt(cap, chunks[..n], readBefore[..n], i) <==> FitsAt(cap, chunks, readBefore, i)
  {
    hide Joined;
    assert chunks[..|chunks| - 1][..i + 1] == chunks[..i + 1];
  }

  /** Two sequences, one no longer than the other, with the same tail cut or not. */
  lemma SameEnds(a: seq<byte>, b: seq<byte>, c: seq<byte>, k: nat)
    requires |a| <= |b| && k <= |c|
    ensures a + c[..k] == b + c <==> a == b && k == |c|
  {
    if a + c[..k] == b + c {
      assert |a| == |b| && k == |c|;
      assert a == (a + c[..k])[..|a|] == (b + c)[..|b|] == b;
    }
  }

  function Wrap32(n: nat): nat {
    n % 0x1_0000_0000
  }

  /** The count of blocks may wrap: it still names the other block. */
  lemma OtherBlock(n: nat)
    ensures Wrap32(n + 1) % 2 == 1 - n % 2
  {
    Parity(n + 1, (n + 1) / 0x1_0000_0000, Wrap32(n + 1));
  }

  lemma Parity(n: nat, q: nat, r: nat)
    requires n == 0x1_0000_0000 * q + r
    ensures r % 2 == n % 2
  {
    assert n == 2 * (0x8000_0000 * q) + r;
  }

  class Host {
    const swaps: seq<SwapAnswer>
    const pendings: seq<bool>
    const clock: seq<bool>
    var swapAt: nat
    var pendAt: nat
    var clockAt: nat

    /** The blocks have the right size, and may hold anything, such as old trace bytes. */
    ghost predicate Fits(size: nat) {
      forall i :: 0 <= i < |swaps| ==> swaps[i].Sized(size)
    }

    function NextSwap(): SwapAnswer
      reads this`swapAt
    {
      if swapAt < |swaps| then swaps[swapAt] else Busy
    }

    /** The chunks of the answers number `from` up to `to` with which a block came back. */
    ghost function Offers(from: nat, to: nat): (chunks: seq<seq<byte>>)
      decreases to
    {
      if to <= from then []
      else
        Offers(from, to - 1)
        + if to <= |swaps| && swaps[to - 1].Ready? then [swaps[to - 1].Chunk()] else []
    }

    lemma {:induction false} OffersGrow(from: nat, a: nat, b: nat)
      requires a <= b
      ensures Offers(from, a) <= Offers(from, b)
      decreases b
    {
      if a < b {
        OffersGrow(from, a, b - 1);
      }
    }

    predicate NextPending()
      reads this`pendAt
    {
      pendAt < |pendings| && pendings[pendAt]
    }

    predicate NextExpired()
      reads this`clockAt
    {
      clockAt < |clock| ==> clock[clockAt]
    }

    /** In this call the clock was asked, and its last answer was that the time is up. */
    twostate predicate TimedOut()
      reads this`clockAt
    {
      old(clockAt) < clockAt && (clockAt <= |clock| ==> clock[clockAt - 1])
    }

    ghost predicate After(swapAt0: nat, pendAt0: nat, clockAt0: nat)
      reads this
    {
      swapAt0 <= swapAt && pendAt0 <= pendAt && clockAt0 <= clockAt
    }

    ghost function Budget(): nat
      reads this`pendAt, this`clockAt
    {
      (if pendAt < |pendings| then |pendings| - pendAt else 0) + (if clockAt < |clock| then |clock| - clockAt else 0)
    }

    constructor (swaps: seq<SwapAnswer>, pendings: seq<bool>, clock: seq<bool>)
      ensures this.swaps == swaps && this.pendings == pendings && this.clock == clock
      ensures swapAt == pendAt == clockAt == 0
    {
      this.swaps, this.pendings, this.clock := swaps, pendings, clock;
      swapAt, pendAt, clockAt := 0, 0, 0;
    }

    method SwapStart() returns (a: SwapAnswer)
      modifies this`swapAt
      ensures a == old(NextSwap()) && swapAt == old(swapAt) + 1
    {
      a := NextSwap();
      swapAt := swapAt + 1;
    }

    method HostDataPending() returns (b: bool)
      modifies this`pendAt
      ensures b == old(NextPending()) && pendAt == old(pendAt) + 1
    {
      b := NextPending();
      pendAt := pendAt + 1;
    }

    method TmoCheck() returns (expired: bool)
      modifies this`clockAt
      ensures expired == old(NextExpired()) && clockAt == old(clockAt) + 1
    {
      expired := NextExpired();
      clockAt := clockAt + 1;
    }
  }

  /** Where an allocated packet lies: its offset in a block or in the pending ring. */
  datatype Ptr = InBlock(blk: nat, off: nat) | InPend(off: nat) {
    /** Where the header of the packet starts whose user data is here. */
    function Header(): Ptr
      requires HDR_SIZE <= off
    {
      this.(off := off - HDR_SIZE)
    }
  }

  class Proto {
    const block0: array<byte>
    const block1: array<byte>
    const pend: RingBuffer
    var down: RingBuffer
    const host: Host
    var inBlock: nat
    var markers: seq<nat>

    /** All bytes the host was given to read. */
    ghost var exposed: seq<byte>
    /** All packets allocated so far. */
    ghost var log: seq<Packet>
    /** Since the down ring got its storage, when answer `since` was next: all bytes handed on to
        the application, and how many of them had been when each chunk from the host came. */
    ghost var since: nat
    ghost var delivered: seq<byte>
    ghost var readBefore: seq<nat>

    function Size(): nat {
      block0.Length
    }

    function Block(i: nat): array<byte> {
      if i % 2 == 0 then block0 else block1
    }

    function Marker(): nat
      requires |markers| == 2
      reads this`inBlock, this`markers
    {
      markers[inBlock % 2]
    }

    ghost predicate Shape()
      reads this`down, this`inBlock, this`markers
    {
      && block0 != block1 && block0.Length == block1.Length && HDR_SIZE <= Size() < 0x8000
      && pend != down && pend.data != down.data
      && pend.data != block0 && pend.data != block1
      && down.data != block0 && down.data != block1
      && |markers| == 2 && Marker() <= Size()
    }

    /** The bytes in the block that is being filled. */
    ghost function BlockBytes(): (s: seq<byte>)
      requires Shape()
      reads this`down, this`inBlock, this`markers, block0, block1
    {
      Block(inBlock)[..Marker()]
    }

    /** Every byte allocated for the host, in order: those already exposed, those in the
        current block, those pended. */
    ghost function Stream(): (s: seq<byte>)
      requires Shape() && pend.Valid()
      reads this`down, this`inBlock, this`markers, this`exposed, block0, block1, pend, pend.data
    {
      exposed + (BlockBytes() + pend.Contents())
    }

    /** The state of the blocks and the rings. */
    ghost predicate Body()
      reads this`down, this`inBlock, this`markers, block0, block1, pend, pend.data, down
    {
      && Shape()
      && pend.Valid() && (pend.Contents() != [] ==> Marker() > 0)
      && down.Valid() && down.curSize == down.data.Length
      && host.Fits(Size())
    }

    /** The chunks that came from the host. */
    ghost function Offered(): (chunks: seq<seq<byte>>)
      reads this`since, host`swapAt
    {
      host.Offers(since, host.swapAt)
    }

    /** The bytes of those that the down ring took. */
    ghost function Accepted(): (s: seq<byte>)
      requires |readBefore| == |Offered()|
      reads this`down, this`since, this`readBefore, host`swapAt, down
    {
      Taken(down.Cap(), Offered(), readBefore)
    }

    /** What the application got, and then what waits in the down ring, are the bytes that the
        ring took of what the host sent. */
    ghost predicate FromHost()
      reads this`down, this`since, this`readBefore, this`delivered, host`swapAt, down, down.data
    {
      down.Valid() && since <= host.swapAt && |readBefore| == |Offered()| && delivered + down.Contents() == Accepted()
    }

    ghost predicate Core()
      reads this`down, this`inBlock, this`markers, this`since, this`readBefore, this`delivered, host`swapAt
      reads block0, block1, pend, pend.data, down, down.data
    {
      Body() && FromHost()
    }

    /** How many bytes from the host are waiting to be read. */
    ghost function Waiting(): nat
      requires Core()
      reads this`down, this`inBlock, this`markers, this`since, this`readBefore, this`delivered, host`swapAt
      reads block0, block1, pend, pend.data, down, down.data
    {
      |down.Contents()|
    }

    /** Nothing is pended, and a packet of `raw` bytes fits the current block. */
    ghost predicate Quiet(raw: nat)
      reads this`inBlock, this`markers, pend`rd, pend`wr
    {
      |markers| == 2 && pend.rd == pend.wr && Marker() + raw <= Size()
    }

    /** The law of the protocol: no byte of an allocated packet is lost, repeated or
        reordered on its way to the host, and none of the bytes taken from the host on its
        way to the application. */
    ghost predicate Valid()
      reads this, host`swapAt, down, block0, block1, pend, pend.data, down.data
    {
      Core() && AllValid(log) && Stream() == EncodeAll(log)
    }

    /** The effect of one successful block swap. */
    twostate predicate Swapped()
      requires old(Body()) && Body()
      reads this, down, block0, block1, pend, pend.data, down.data
    {
      && down == old(down) && log == old(log) && delivered == old(delivered) && since == old(since)
      && inBlock % 2 == 1 - old(inBlock) % 2
      && exposed == old(exposed) + old(BlockBytes())
      && BlockBytes() + pend.Contents() == old(pend.Contents())
      && Marker() == Min(Size(), |old(pend.Contents())|)
    }

    /** More chunks may have come from the host, all of them before anything else was read. */
    twostate predicate Came()
      reads this
    {
      && down == old(down) && since == old(since) && old(readBefore) <= readBefore
      && forall i :: |old(readBefore)| <= i < |readBefore| ==> readBefore[i] == |old(delivered)|
    }

    /** The same over several reads: each chunk came after some of them. */
    twostate predicate CameMeanwhile()
      reads this
    {
      && down == old(down) && since == old(since) && old(readBefore) <= readBefore && old(delivered) <= delivered
      && forall i :: |old(readBefore)| <= i < |readBefore| ==> |old(delivered)| <= readBefore[i] <= |delivered|
    }

    /** Unless a block was handed over, what was allocated still lies where it was. */
    twostate predicate Steady()
      requires old(Shape()) && Shape()
      reads this`down, this`inBlock, this`markers, this`exposed, pend
    {
      exposed == old(exposed) && old(Marker()) > 0 ==>
        && inBlock == old(inBlock) && old(Marker()) <= Marker()
        && (old(pend.rd != pend.wr) ==> Marker() == old(Marker()) && pend.Extends())
    }

    /** What holds across every operation that allocates nothing and delivers nothing. */
    twostate predicate Kept()
      requires old(Body()) && Body()
      reads this, down, block0, block1, pend, pend.data, down.data
    {
      && Stream() == old(Stream()) && log == old(log) && delivered == old(delivered)
      && old(exposed) <= exposed && Came() && Steady()
    }

    /** What came from the host stays in the down ring until it is read. */
    twostate lemma RingGrows()
      requires old(Core()) && Core() && Came() && delivered == old(delivered) && old(host.swapAt) <= host.swapAt
      ensures old(Waiting()) <= Waiting()
    {
      hide pend.Contents, pend.Valid, host.Offers, Taken;
      var k := |old(readBefore)|;
      host.OffersGrow(since, old(host.swapAt), host.swapAt);
      assert Offered()[..k] == old(Offered()) && readBefore[..k] == old(readBefore);
      TakenGrows(down.Cap(), Offered(), readBefore, k);
    }

    /** A swap took place: the block that was being filled has gone to the host. */
    twostate predicate HandedOver()
      requires old(Shape())
      reads this`exposed
    {
      old(exposed) + old(BlockBytes()) <= exposed
    }

    constructor (b0: array<byte>, b1: array<byte>, pendingData: array<byte>, host: Host)
      requires b0 != b1 && b0.Length == b1.Length && HDR_SIZE <= b0.Length < 0x8000
      requires pendingData != b0 && pendingData != b1
      requires host.Fits(b0.Length)
      ensures Valid() && fresh(down) && fresh(down.data) && fresh(pend)
      ensures block0 == b0 && block1 == b1 && pend.data == pendingData && this.host == host
      ensures log == [] && delivered == [] && readBefore == [] && since == host.swapAt && Quiet(Size())
    {
      hide Valid, Core, Stream, EncodeAll, RingBuffer.Contents, RingBuffer.Valid;
      var noStorage := new byte[0];
      down := new RingBuffer(noStorage);
      block0, block1 := b0, b1;
      markers := [0, 0];
      inBlock := 0;
      pend := new RingBuffer(pendingData);
      this.host := host;
      exposed, delivered, log := [], [], [];
      since, readBefore := host.swapAt, [];
      new;
      EmptyIsValid();
    }

    lemma ExposedIsPrefix()
      requires Valid()
      ensures exposed <= EncodeAll(log)
    {
      hide pend.Contents, pend.Valid, down.Contents, down.Valid, EncodeAll, BlockBytes;
    }

    /** Whatever was exposed so far, the host cuts it into a prefix of the packets that were
        allocated, none missing, none broken, none out of order. */
    lemma HostSeesPrefix() returns (k: nat)
      requires Valid()
      ensures k <= |log| && Parse(exposed).0 == log[..k]
      ensures k < |log| ==> Parse(exposed).1 < Encode(log[k])
    {
      ExposedIsPrefix();
      k := ParseOfPrefix(log, exposed);
    }

    lemma DeliveredFromHost()
      requires Valid()
      ensures since <= host.swapAt && |readBefore| == |Offered()|
      ensures delivered + down.Contents() == Taken(down.Cap(), Offered(), readBefore)
    {
      hide pend.Contents, pend.Valid, Taken, Offered, Stream, EncodeAll;
    }

    lemma EmptyIsValid()
      requires Shape() && markers == [0, 0] && inBlock == 0 && host.Fits(Size())
      requires pend.Valid() && pend.Contents() == []
      requires down.Valid() && down.curSize == down.data.Length && down.Contents() == []
      requires exposed == delivered == [] && log == [] && readBefore == [] && since == host.swapAt
      ensures Valid()
    {
      hide pend.Contents, pend.Valid, EncodeAll;
      EncodeNothing();
    }

    /** Gives the down ring its storage; what was in it is gone. */
    method DownBufferConfig(buf: array<byte>)
      requires Valid()
      requires buf != block0 && buf != block1 && buf != pend.data
      modifies this`down, this`since, this`readBefore, this`delivered
      ensures Valid() && fresh(down) && down.data == buf
      ensures delivered == [] && readBefore == [] && Accepted() == [] && since == host.swapAt
    {
      hide EncodeAll, pend.Contents, pend.Valid, host.Fits, FromHost, Taken, host.Offers;
      down := new RingBuffer(buf);
      since, readBefore, delivered := host.swapAt, [], [];
      NothingArrived();
    }

    lemma NothingArrived()
      requires down.Valid() && down.Contents() == [] && delivered == [] && readBefore == [] && since == host.swapAt
      ensures FromHost() && Accepted() == []
    {
      hide down.Contents, down.Valid;
    }

    /** Takes in what the host left in block `i`. */
    method ReceiveFromHost(i: nat, a: SwapAnswer)
      requires Shape() && down.Valid() && down.curSize == down.data.Length
      requires a.Ready? && a.Sized(Size()) && Block(i)[..] == a.left
      modifies down, down.data, Block(i)
      ensures down.Valid() && down.curSize == down.data.Length
      ensures down.Contents() == old(down.Contents()) + Part(a.Chunk(), old(down.Free()))
      ensures a.pending ==> FromLe16(Block(i)[..2]) == 0
      ensures !a.pending ==> Block(i)[..] == a.left
    {
      hide down.Contents;
      var blk := Block(i);
      var blockSz := FromLe16(blk[..2]);
      assert a.left[..2] == blk[..2];
      if a.pending && blockSz > 0 {
        var data := (blk[..] + a.behind)[2..2 + blockSz];
        assert data == a.Chunk();
        var n := DownBufferWrite(down, data);
        Copy(blk, 0, Le16(0));
      }
    }

    /** The new block: first what the host left in it is taken in, then pended bytes are
        pumped into it. */
    method Refill(i: nat, a: SwapAnswer) returns (marker: nat)
      requires Shape() && pend.Valid() && down.Valid() && down.curSize == down.data.Length
      requires a.Ready? && a.Sized(Size())
      modifies pend, down, down.data, Block(i)
      ensures pend.Valid() && down.Valid() && down.curSize == down.data.Length
      ensures down.Contents() == old(down.Contents()) + Part(a.Chunk(), old(down.Free()))
      ensures marker == Min(Size(), |old(pend.Contents())|)
      ensures Block(i)[..marker] + pend.Contents() == old(pend.Contents())
    {
      hide pend.Contents, a.Chunk, pend.Valid, Part;
      Copy(Block(i), 0, a.left);
      ReceiveFromHost(i, a);
      marker := PumpPending(pend, Block(i));
    }

    /** A swap moves bytes but loses, repeats and reorders none. */
    twostate lemma SwapKeepsStream()
      requires old(Body()) && Body() && Swapped()
      ensures Stream() == old(Stream()) && old(exposed) <= exposed && Steady()
    {
      hide pend.Contents, pend.Valid, down.Valid;
      var e, b, p := old(exposed), old(BlockBytes()), old(pend.Contents());
      assert (e + b) + p == e + (b + p);
    }

    /** The exchange itself, once the host has agreed to it. */
    method Exchange(a: SwapAnswer)
      requires Body() && a.Ready? && a.Sized(Size())
      modifies this`inBlock, this`markers, this`exposed
      modifies pend, down, down.data, block0, block1
      ensures Body() && Swapped()
      ensures down.Contents() == old(down.Contents()) + Part(a.Chunk(), old(down.Free()))
    {
      hide pend.Contents, a.Chunk, pend.Valid, host.Fits, down.Free, Wrap32, Part;
      var prev := inBlock % 2;
      var next := 1 - prev;
      ghost var filled := BlockBytes();
      OtherBlock(inBlock);
      inBlock := Wrap32(inBlock + 1);
      markers := markers[next := 0];
      var marker := Refill(next, a);
      markers := markers[next := marker];
      assert Block(prev)[..markers[prev]] == filled;
      exposed := exposed + Block(prev)[..markers[prev]];
    }

    /** The answer to a request to swap adds one chunk, if a block came back, else none. */
    lemma OffersNext(at: nat)
      requires since <= at
      ensures at < |host.swaps| && host.swaps[at].Ready? ==>
                host.Offers(since, at + 1) == host.Offers(since, at) + [host.swaps[at].Chunk()]
      ensures !(at < |host.swaps| && host.swaps[at].Ready?) ==> host.Offers(since, at + 1) == host.Offers(since, at)
    {
    }

    /** The down ring after one more chunk. */
    lemma AcceptedNext(before: seq<byte>, chunk: seq<byte>, chunks: seq<seq<byte>>, read: seq<nat>)
      requires down.Valid() && since <= host.swapAt && Offered() == chunks + [chunk]
      requires |read| == |chunks| && readBefore == read + [|delivered|]
      requires delivered + before == Taken(down.Cap(), chunks, read) && |before| <= down.Cap()
      requires down.Contents() == before + Part(chunk, down.Cap() - |before|)
      ensures FromHost()
    {
      hide down.Contents, down.Valid, Offered, Taken, Part, down.Cap, Min;
      TakenNext(down.Cap(), chunks, read, chunk, |delivered|, down.Cap() - |before|);
      Associates(delivered, before, Part(chunk, down.Cap() - |before|));
    }

    /** The exchange with its account: one more chunk has come from the host. */
    method ExchangeCounted(a: SwapAnswer, ghost chunks: seq<seq<byte>>)
      requires Body() && a.Ready? && a.Sized(Size())
      requires since <= host.swapAt && |readBefore| == |chunks| && Offered() == chunks + [a.Chunk()]
      requires delivered + down.Contents() == Taken(down.Cap(), chunks, readBefore)
      modifies this`inBlock, this`markers, this`exposed, this`readBefore
      modifies pend, down, down.data, block0, block1
      ensures Core() && Swapped() && Kept() && readBefore == old(readBefore) + [|delivered|]
    {
      hide pend.Contents, a.Chunk, pend.Valid, BlockBytes, host.Offers, Taken, host.Fits, Stream, Steady, Part;
      ghost var before := down.Contents();
      Exchange(a);
      SwapKeepsStream();
      readBefore := readBefore + [|delivered|];
      AcceptedNext(before, a.Chunk(), chunks, old(readBefore));
    }

    method Swap() returns (ok: bool)
      requires Core()
      modifies this`inBlock, this`markers, this`exposed, this`readBefore
      modifies host`swapAt, pend, down, down.data, block0, block1
      ensures Core() && host.swapAt == old(host.swapAt) + 1
      ensures ok <==> old(host.NextSwap()).Ready?
      ensures !ok ==> unchanged(this, pend, down, down.data, block0, block1)
      ensures Kept() && (ok ==> Swapped() && readBefore == old(readBefore) + [|delivered|])
      ensures ok && old(Quiet(0)) ==> Quiet(Size())
    {
      hide pend.Contents, pend.Valid, BlockBytes, host.Offers, Taken;
      assert pend.ReadSize() == 0 <==> pend.Contents() == [];
      ghost var chunks := Offered();
      OffersNext(host.swapAt);
      var a := host.SwapStart();
      if a.Busy? {
        return false;
      }
      ExchangeCounted(a, chunks);
      assert pend.ReadSize() == 0 <==> pend.Contents() == [];
      ok := true;
    }

    method SwapWaitUs() returns (ok: bool)
      requires Core()
      modifies this`inBlock, this`markers, this`exposed, this`readBefore
      modifies host`swapAt, host`clockAt, pend, down, down.data, block0, block1
      ensures Core() && host.After(old(host.swapAt), old(host.pendAt), old(host.clockAt))
      ensures !ok ==> unchanged(this, pend, down, down.data, block0, block1) && host.TimedOut()
      ensures old(host.NextSwap()).Ready? ==> ok && host.swapAt == old(host.swapAt) + 1
      ensures Kept() && (ok ==> Swapped() && readBefore == old(readBefore) + [|delivered|])
    {
      hide pend.Contents, pend.Valid, down.Contents, down.Valid, host.Fits, BlockBytes, Stream, FromHost;
      ok := Swap();
      while !ok
        invariant Core() && host.After(old(host.swapAt), old(host.pendAt), old(host.clockAt))
        invariant !ok ==> unchanged(this, pend, down, down.data, block0, block1)
        invariant ok ==> Kept() && Swapped() && readBefore == old(readBefore) + [|delivered|]
        invariant old(host.NextSwap()).Ready? ==> ok && host.swapAt == old(host.swapAt) + 1
        decreases host.Budget()
      {
        var expired := host.TmoCheck();
        if expired {
          return false;
        }
        ok := Swap();
      }
    }

    method FlushNolock(minSz: nat) returns (ok: bool)
      requires Core()
      modifies this`inBlock, this`markers, this`exposed, this`readBefore
      modifies host, pend, down, down.data, block0, block1
      ensures Core() && Kept() && host.After(old(host.swapAt), old(host.pendAt), old(host.clockAt))
      ensures old(Marker()) <= minSz ==> ok && unchanged(this, pend, down, down.data, block0, block1)
      ensures ok <==> Marker() <= minSz
      ensures !ok ==> host.TimedOut()
      ensures old(Marker()) > minSz && old(host.NextSwap()).Ready? ==> HandedOver()
      ensures ok && minSz == 0 ==> pend.Contents() == [] && exposed == Stream()
      ensures old(Quiet(0) && Marker() > minSz && host.NextSwap().Ready?) ==>
                ok && host.swapAt == old(host.swapAt) + 1 && readBefore == old(readBefore) + [|delivered|]
    {
      hide pend.Contents, pend.Valid, down.Contents, down.Valid, FromHost;
      assert pend.ReadSize() == 0 <==> pend.Contents() == [];
      ok := true;
      if Marker() < minSz {
        return;
      }
      while Marker() > minSz
        invariant Core() && Kept() && host.After(old(host.swapAt), old(host.pendAt), old(host.clockAt)) && ok
        invariant old(Marker()) <= minSz ==> unchanged(this, pend, down, down.data, block0, block1)
        invariant unchanged(this, host, block0, block1) || HandedOver()
        invariant old(pend.Contents()) == [] ==>
                    pend.Contents() == [] && (unchanged(this, host) || Marker() == 0)
        invariant old(pend.Contents() == [] && host.NextSwap().Ready?) ==>
                    || unchanged(this, host)
                    || (host.swapAt == old(host.swapAt) + 1 && readBefore == old(readBefore) + [|delivered|])
        decreases Marker() + |pend.Contents()|
      {
        ok := SwapWaitUs();
        if !ok {
          return;
        }
      }
    }

    /** Neither the current block nor the pending ring takes `raw` more bytes. */
    ghost predicate NoRoom(raw: nat)
      requires Body()
      reads this, down, block0, block1, pend, pend.data, down.data
    {
      !pend.CanPlace(raw) && (pend.Contents() == [] ==> Marker() + raw > Size())
    }

    /** Whether the `raw` bytes at `p` are the bytes of the stream from position `pos` on. */
    ghost predicate Place(p: Ptr, raw: nat, pos: nat)
      requires Shape()
      reads this, pend
    {
      match p
      case InBlock(b, off) => b == inBlock % 2 && off + raw <= Marker() && pos == |exposed| + off
      case InPend(off) => pend.Holds(off, raw, pos - |exposed| - Marker()) && |exposed| + Marker() <= pos
    }

    /** What holds across an allocation of `raw` bytes: the stream grows by as many, at its end. */
    twostate predicate Grew(raw: nat)
      requires old(Body()) && Body()
      reads this, down, block0, block1, pend, pend.data, down.data
    {
      && old(Stream()) <= Stream() && |Stream()| == |old(Stream())| + raw
      && log == old(log) && delivered == old(delivered)
      && old(exposed) <= exposed && Came() && Steady()
    }

    method TakeFromPend(raw: nat) returns (r: Option<Ptr>)
      requires Core() && HDR_SIZE <= raw
      requires pend.Contents() == [] ==> Marker() > 0
      modifies pend
      ensures Core()
      ensures r.None? ==> unchanged(pend) && !pend.CanPlace(raw)
      ensures r.Some? ==> old(pend.CanPlace(raw)) && Place(r.value, raw, |old(Stream())|) && Grew(raw)
    {
      hide pend.Contents, pend.Valid, down.Contents, down.Valid, pend.Holds, pend.CanPlace, pend.Live, FromHost;
      ghost var queued := pend.Contents();
      var p := pend.Produce(raw);
      if p.None? {
        return None;
      }
      r := Some(InPend(p.value));
      ghost var tail := pend.data[p.value..p.value + raw];
      assert exposed + (BlockBytes() + (queued + tail)) == exposed + (BlockBytes() + queued) + tail;
    }

    method TakeFromBlock(raw: nat) returns (p: Ptr)
      requires Core() && pend.Contents() == [] && Marker() + raw <= Size() && HDR_SIZE <= raw
      modifies this`markers
      ensures Core() && p == InBlock(inBlock % 2, old(Marker())) && Place(p, raw, |old(Stream())|) && Grew(raw)
      ensures Marker() == old(Marker()) + raw
    {
      assert pend.ReadSize() == 0 <==> pend.Contents() == [];
      hide pend.Contents, pend.Valid, down.Contents, down.Valid, FromHost;
      var cur := inBlock % 2;
      p := InBlock(cur, Marker());
      ghost var filled := BlockBytes();
      markers := markers[cur := markers[cur] + raw];
      assert BlockBytes()[..|filled|] == filled;
    }

    /** Waits for a swap; then the packet goes where there is room. When it may go into the
        block (`!pended`), the caller takes it from there. */
    method Wait4Buf(raw: nat) returns (r: Option<Ptr>, pended: bool)
      requires Core() && NoRoom(raw) && HDR_SIZE <= raw <= Size()
      modifies this`inBlock, this`markers, this`exposed, this`readBefore
      modifies host, pend, down, down.data, block0, block1
      ensures Core() && host.After(old(host.swapAt), old(host.pendAt), old(host.clockAt))
      ensures r.None? ==> Kept() && NoRoom(raw) && (host.TimedOut() || HandedOver())
      ensures old(host.NextSwap()).Ready? ==> HandedOver()
      ensures r.Some? && pended ==> Grew(raw) && Place(r.value, raw, |old(Stream())|)
      ensures r.Some? && !pended ==>
                && Kept() && pend.Contents() == [] && Marker() + raw <= Size()
                && r.value == InBlock(inBlock % 2, Marker())
    {
      hide pend.Contents, pend.Valid, down.Contents, down.Valid, pend.CanPlace, pend.Holds, BlockBytes, FromHost;
      pended := false;
      var ok := SwapWaitUs();
      if !ok {
        return None, pended;
      }
      if pend.ReadSize() > 0 {
        pended := true;
        r := TakeFromPend(raw);
      } else if Marker() + raw > Size() {
        pended := true;
        r := TakeFromPend(raw);
      } else {
        r := Some(InBlock(inBlock % 2, Marker()));
      }
    }

    /** Wait4Buf, and the block's marker moved past a packet that went there. */
    method WaitAndTake(raw: nat) returns (r: Option<Ptr>)
      requires Core() && NoRoom(raw) && HDR_SIZE <= raw <= Size()
      modifies this`inBlock, this`markers, this`exposed, this`readBefore
      modifies host, pend, down, down.data, block0, block1
      ensures Core() && host.After(old(host.swapAt), old(host.pendAt), old(host.clockAt))
      ensures r.None? ==> Kept() && NoRoom(raw) && (host.TimedOut() || HandedOver())
      ensures old(host.NextSwap()).Ready? ==> HandedOver()
      ensures r.Some? ==> Grew(raw) && Place(r.value, raw, |old(Stream())|)
    {
      hide pend.Contents, pend.Valid, down.Contents, down.Valid, pend.CanPlace, pend.Holds, BlockBytes, Stream, FromHost;
      var pended;
      r, pended := Wait4Buf(raw);
      if r.Some? && !pended {
        var p := TakeFromBlock(raw);
      }
    }

    /** Room in the pending ring, or after a swap. */
    method TakeOrWait(raw: nat) returns (r: Option<Ptr>)
      requires Core() && HDR_SIZE <= raw <= Size() && Marker() > 0
      requires pend.Contents() == [] ==> Marker() + raw > Size()
      modifies this`inBlock, this`markers, this`exposed, this`readBefore
      modifies host, pend, down, down.data, block0, block1
      ensures Core() && host.After(old(host.swapAt), old(host.pendAt), old(host.clockAt))
      ensures r.None? ==> Kept() && NoRoom(raw) && (host.TimedOut() || HandedOver())
      ensures r.Some? ==> Grew(raw) && Place(r.value, raw, |old(Stream())|)
    {
      hide pend.Contents, pend.Valid, pend.CanPlace, pend.Holds, BlockBytes, Stream, host.Fits, FromHost;
      r := TakeFromPend(raw);
      if r.None? {
        r := WaitAndTake(raw);
      }
    }

    /** Room for a packet: in the current block while nothing is pended, else in the
        pending ring, else wherever it is after a swap. */
    method Allocate(raw: nat) returns (r: Option<Ptr>)
      requires Core() && HDR_SIZE <= raw <= Size()
      modifies this`inBlock, this`markers, this`exposed, this`readBefore
      modifies host, pend, down, down.data, block0, block1
      ensures Core() && host.After(old(host.swapAt), old(host.pendAt), old(host.clockAt))
      ensures r.None? ==> Kept() && NoRoom(raw) && (host.TimedOut() || HandedOver())
      ensures old(pend.Contents() != [] && host.NextSwap().Ready?) ==> HandedOver()
      ensures r.Some? ==> Grew(raw) && Place(r.value, raw, |old(Stream())|)
      ensures old(Quiet(raw)) ==>
                && r == Some(InBlock(inBlock % 2, old(Marker()))) && Marker() == old(Marker()) + raw
                && unchanged(host, pend, down, this`exposed)
    {
      hide pend.Contents, pend.Valid, pend.CanPlace, pend.Holds, BlockBytes, Stream, host.Fits, FromHost;
      if pend.ReadSize() > 0 {
        var ok := Swap();
      }
      if pend.ReadSize() > 0 {
        r := TakeOrWait(raw);
      } else {
        if Marker() + raw > Size() {
          r := TakeOrWait(raw);
        } else {
          var p := TakeFromBlock(raw);
          r := Some(p);
        }
      }
    }

    /** A store through `p`, within the `raw` bytes that lie there. */
    method Poke(p: Ptr, ghost raw: nat, ghost pos: nat, off: nat, bs: seq<byte>)
      requires Core() && Place(p, raw, pos) && off + |bs| <= raw
      modifies block0, block1, pend.data
      ensures Core() && pos + raw <= |Stream()| == |old(Stream())|
      ensures Stream() == Splice(old(Stream()), pos + off, bs)
    {
      hide pend.Contents, pend.Valid, down.Contents, down.Valid, pend.Holds, Splice, FromHost;
      ghost var filled, queued := BlockBytes(), pend.Contents();
      match p
      case InBlock(b, o) =>
        SpliceInside(Block(b)[..], o + off, bs, 0, Marker());
        assert Block(b)[..][0..Marker()] == filled;
        Copy(Block(b), o + off, bs);
        assert BlockBytes() == Block(b)[..][0..Marker()];
        SpliceLeft(filled, queued, o + off, bs);
        SpliceRight(exposed, filled + queued, o + off, bs);
      case InPend(o) =>
        ghost var q := pos - |exposed| - Marker();
        pend.Poke(o, raw, q, off, bs);
        SpliceRight(filled, queued, q + off, bs);
        SpliceRight(exposed, filled + queued, |filled| + q + off, bs);
    }

    lemma BytesInBlock(b: nat, o: nat, pos: nat)
      requires Core() && Place(InBlock(b, o), 2, pos)
      ensures pos + 2 <= |Stream()| && Stream()[pos..pos + 2] == Block(b)[o..o + 2]
    {
      hide pend.Contents, pend.Valid, down.Valid, pend.Holds, FromHost;
      var filled := BlockBytes();
      assert filled[o..o + 2] == Block(b)[o..o + 2];
      PartOfLeft(filled, pend.Contents(), o, 2);
      PartOfRight(exposed, filled + pend.Contents(), o, 2);
    }

    lemma BytesInPend(o: nat, pos: nat)
      requires Core() && Place(InPend(o), 2, pos)
      ensures pos + 2 <= |Stream()| && o + 2 <= pend.data.Length && Stream()[pos..pos + 2] == pend.data[o..o + 2]
    {
      hide pend.Contents, pend.Valid, down.Valid, pend.Holds, FromHost;
      var q := pos - |exposed| - Marker();
      pend.HoldsBytes(o, 2, q);
      PartOfRight(BlockBytes(), pend.Contents(), q, 2);
      PartOfRight(exposed, BlockBytes() + pend.Contents(), |BlockBytes()| + q, 2);
    }

    /** Reads back a half-word at `p`. */
    method Peek16(p: Ptr, ghost raw: nat, ghost pos: nat) returns (v: nat)
      requires Core() && Place(p, raw, pos) && 2 <= raw
      ensures v < 0x1_0000 && pos + 2 <= |Stream()| && Le16(v) == Stream()[pos..pos + 2]
    {
      hide pend.Contents, pend.Valid, down.Valid, pend.Holds, FromHost, Stream, Le16;
      match p
      case InBlock(b, o) =>
        BytesInBlock(b, o, pos);
        v := FromLe16(Block(b)[o..o + 2]);
      case InPend(o) =>
        pend.HoldsPart(o, raw, pos - |exposed| - Marker(), 2);
        BytesInPend(o, pos);
        v := FromLe16(pend.data[o..o + 2]);
    }

    /** Packet number `k` can still be filled in: its user data starts at `p`. */
    ghost predicate Held(p: Ptr, k: nat)
      requires Body() && AllValid(log)
      reads this, block0, block1, pend, pend.data, down
    {
      && k < |log| && HDR_SIZE <= p.off
      && Place(p.Header(), HDR_SIZE + |log[k].payload|, Start(log, k))
    }

    /** Others may allocate, fill in and send off packets: until a block is handed over, a packet
        stays where its owner was told it is. */
    twostate lemma HeldStays(p: Ptr, k: nat)
      requires old(Valid()) && Valid()
      requires Steady() && exposed == old(exposed) && SameSizes(old(log), log)
      requires old(Held(p, k))
      ensures Held(p, k)
    {
      hide pend.Contents, Stream, EncodeAll, FromHost, host.Fits;
      SameStart(old(log), log, k);
      assert old(pend.ReadSize()) == 0 <==> old(pend.Contents()) == [];
    }

    /** When its block is handed over, the host sees a packet just as its owner has left it: one
        that is not sent off yet has written size zero. */
    twostate lemma SeenAsLeft(p: Ptr, k: nat)
      requires old(Valid()) && Valid() && SameSizes(old(log), log)
      requires old(Held(p, k)) && p.InBlock? && HandedOver()
      ensures k < |Parse(exposed).0| && Parse(exposed).0[k] == log[k]
    {
      hide pend.Contents, Stream, EncodeAll, FromHost, host.Fits, Parse, Encode;
      SameStart(old(log), log, k);
      StreamAround(log, k);
      ExposedIsPrefix();
      WholeInside(log, exposed, k);
    }

    method PktStart(p: Ptr, core: nat, size: nat, ghost before: seq<byte>) returns (q: Ptr)
      requires Core() && core < 2 && size + HDR_SIZE < 0x8000
      requires AllValid(log) && before == EncodeAll(log) && Place(p, size + HDR_SIZE, |before|)
      requires before <= Stream() && |Stream()| == |before| + size + HDR_SIZE
      modifies block0, block1, pend.data, this`log
      ensures Valid() && Held(q, |old(log)|)
      ensures exists payload :: |payload| == size && log == old(log) + [Packet(core, payload, 0)]
    {
      hide pend.Contents, pend.Valid, down.Contents, down.Valid, pend.Holds, Splice, Stream, EncodeAll, Encode, FromHost;
      ghost var tail := Stream()[|before|..];
      assert Stream() == before + tail;
      SpliceRight(before, tail, 0, Le16(core * 0x8000 + size));
      Poke(p, size + HDR_SIZE, |before|, 0, Le16(core * 0x8000 + size));
      ghost var tail1 := Splice(tail, 0, Le16(core * 0x8000 + size));
      SpliceRight(before, tail1, 2, Le16(0));
      Poke(p, size + HDR_SIZE, |before|, 2, Le16(0));
      HeaderOver(core, tail);
      ghost var pkt := Packet(core, tail[HDR_SIZE..], 0);
      EncodeAppend(log, pkt);
      log := log + [pkt];
      assert log[..|old(log)|] == old(log);
      q := p.(off := p.off + HDR_SIZE);
    }

    /** Allocates a packet for `size` bytes of user data. */
    method UpBufferGet(core: nat, size: nat) returns (r: Option<Ptr>)
      requires Valid() && core < 2
      modifies this`inBlock, this`markers, this`exposed, this`readBefore, this`log
      modifies host, pend, pend.data, down, down.data, block0, block1
      ensures Valid() && host.After(old(host.swapAt), old(host.pendAt), old(host.clockAt))
      ensures delivered == old(delivered) && old(exposed) <= exposed && Came()
      ensures size + HDR_SIZE > Size() ==>
                r.None? && unchanged(this, host, pend, pend.data, down, down.data, block0, block1)
      ensures r.None? ==> log == old(log)
      ensures r.None? && size + HDR_SIZE <= Size() ==> NoRoom(size + HDR_SIZE) && (host.TimedOut() || HandedOver())
      ensures old(pend.Contents() != [] && host.NextSwap().Ready?) && size + HDR_SIZE <= Size() ==> HandedOver()
      ensures r.Some? ==> Held(r.value, |old(log)|)
      ensures Steady() && SameSizes(old(log), log)
      ensures r.Some? ==> exists payload :: |payload| == size && log == old(log) + [Packet(core, payload, 0)]
      ensures old(Quiet(HDR_SIZE + size)) ==>
                r.Some? && Quiet(0) && Marker() > 0 && unchanged(host, this`exposed)
    {
      hide pend.Contents, pend.Valid, down.Contents, down.Valid, Stream, EncodeAll, Place, NoRoom, FromHost;
      if size > Size() - HDR_SIZE {
        return None;
      }
      var p := Allocate(size + HDR_SIZE);
      if p.None? {
        return None;
      }
      var q := PktStart(p.value, core, size, old(Stream()));
      r := Some(q);
    }

    /** The owner of packet `k` fills it in. */
    method Fill(p: Ptr, ghost k: nat, data: seq<byte>)
      requires Valid() && Held(p, k) && |data| == |log[k].payload|
      modifies block0, block1, pend.data, this`log
      ensures Valid() && Held(p, k) && SameSizes(old(log), log)
      ensures log == old(log)[k := old(log)[k].(payload := data)]
    {
      hide pend.Contents, pend.Valid, down.Contents, down.Valid, Stream, EncodeAll, pend.Holds, Splice, FromHost;
      Patch(log, k, data, 0);
      Poke(p.Header(), HDR_SIZE + |data|, Start(log, k), HDR_SIZE, data);
      log := log[k := log[k].(payload := data)];
      SameStart(old(log), log, k);
    }

    /** Marks packet `k` as written: its second size word becomes its first. */
    method UpBufferPut(p: Ptr, ghost k: nat)
      requires Valid() && Held(p, k)
      modifies block0, block1, pend.data, this`log
      ensures Valid() && Held(p, k) && SameSizes(old(log), log)
      ensures log == old(log)[k := old(log)[k].(wrSz := old(log)[k].BlockSz())]
    {
      hide pend.Contents, pend.Valid, down.Contents, down.Valid, Stream, EncodeAll, pend.Holds, Splice, FromHost;
      ghost var pkt, at, raw := log[k], Start(log, k), HDR_SIZE + |log[k].payload|;
      var q := p.Header();
      var blockSz := Peek16(q, raw, at);
      FirstWord(log, k);
      Le16Injective(blockSz);
      Le16Injective(pkt.BlockSz());
      Patch(log, k, pkt.payload, blockSz);
      Poke(q, raw, at, 2, Le16(blockSz));
      log := log[k := pkt.(wrSz := blockSz)];
      SameStart(old(log), log, k);
    }

    /** The user data at `p` is in the block that the host has. */
    ghost predicate Late(p: Ptr, len: nat)
      reads this`inBlock
    {
      p.InBlock? && p.blk == 1 - inBlock % 2 && HDR_SIZE <= p.off && p.off + len <= Size()
    }

    /** That is where a packet is after its block was handed over once. */
    twostate lemma LateAfterSwap(p: Ptr, k: nat)
      requires old(Valid()) && Core()
      requires Swapped() && p.InBlock? && old(Held(p, k))
      ensures Late(p, |log[k].payload|)
    {
      hide pend.Contents, Stream, EncodeAll, FromHost, host.Fits;
    }

    /** A packet filled in too late: no packet changes, neither what the host was shown nor what it
        will be. */
    method FillLate(p: Ptr, data: seq<byte>)
      requires Valid() && Late(p, |data|)
      modifies block0, block1
      ensures Valid() && log == old(log) && exposed == old(exposed) && Stream() == old(Stream())
    {
      hide pend.Contents, pend.Valid, down.Contents, down.Valid, EncodeAll, FromHost, host.Fits, Splice;
      Copy(Block(p.blk), p.off, data);
    }

    /** The same for a packet sent off too late. */
    method PutLate(p: Ptr)
      requires Valid() && Late(p, 0)
      modifies block0, block1
      ensures Valid() && log == old(log) && exposed == old(exposed) && Stream() == old(Stream())
    {
      hide pend.Contents, pend.Valid, down.Contents, down.Valid, EncodeAll, FromHost, host.Fits, Splice, Le16;
      var blk, at := Block(p.blk), p.off - HDR_SIZE;
      var blockSz := FromLe16(blk[at..at + 2]);
      Copy(blk, at + 2, Le16(blockSz));
    }

    /** Takes the next `n` host bytes out of the down ring. */
    method Deliver(n: nat) returns (p: nat)
      requires Core() && n <= down.ReadSize()
      modifies down, this`delivered
      ensures Core() && p + n <= down.data.Length
      ensures delivered == old(delivered) + down.data[p..p + n] && Waiting() == old(Waiting()) - n
      ensures Stream() == old(Stream()) && unchanged(pend)
      ensures n == old(down.ReadSize()) ==> down.rd == down.wr || down.rd == 0
    {
      hide pend.Contents, pend.Valid, BlockBytes, down.Live, Stream, host.Fits, Taken, Offered;
      ghost var queued := down.Contents();
      var r := down.Consume(n);
      p := r.value;
      ghost var piece := down.data[p..p + n];
      assert delivered + (piece + down.Contents()) == (delivered + piece) + down.Contents();
      delivered := delivered + piece;
    }

    /** Waits until there are bytes from the host, swapping blocks for them, or the time is up. */
    method AwaitBytes() returns (some: bool)
      requires Core()
      modifies this`inBlock, this`markers, this`exposed, this`readBefore
      modifies host, pend, down, down.data, block0, block1
      ensures Core() && Kept() && host.After(old(host.swapAt), old(host.pendAt), old(host.clockAt))
      ensures some <==> down.Contents() != []
      ensures !some ==> host.TimedOut()
      ensures old(down.Contents()) != [] ==> unchanged(this, host, pend, down, down.data)
    {
      hide pend.Contents, pend.Valid, Stream, BlockBytes, down.Live, host.Fits, Swapped, FromHost;
      some := true;
      while down.ReadSize() == 0
        invariant Core() && Kept() && host.After(old(host.swapAt), old(host.pendAt), old(host.clockAt))
        invariant old(down.Contents()) != [] ==> unchanged(this, host, pend, down, down.data)
        decreases host.Budget()
      {
        var pending := host.HostDataPending();
        if pending {
          var ok := SwapWaitUs();
        } else {
          var expired := host.TmoCheck();
          if expired {
            return false;
          }
        }
      }
    }

    /** Hands on bytes from the host, at most `size` of them, as a piece of the down ring's
        storage; swaps blocks for more when there are none. */
    method DownBufferGet(size: nat) returns (r: Option<nat>, n: nat)
      requires Valid()
      modifies this`inBlock, this`markers, this`exposed, this`readBefore, this`delivered
      modifies host, pend, down, down.data, block0, block1
      ensures Valid() && host.After(old(host.swapAt), old(host.pendAt), old(host.clockAt))
      ensures log == old(log) && old(exposed) <= exposed && Came() && Steady()
      ensures old(Waiting()) > 0 ==> Waiting() == old(Waiting()) - n
      ensures r.None? ==> n == 0 && delivered == old(delivered) && down.Contents() == [] && host.TimedOut()
      ensures r.Some? ==> n <= size && (0 < size ==> 0 < n) && r.value + n <= down.data.Length
      ensures r.Some? ==> delivered == old(delivered) + down.data[r.value..r.value + n]
      ensures old(down.Contents()) != [] ==> r.Some? && exposed == old(exposed) && n == Min(size, old(down.ReadSize()))
      ensures r.Some? && n < size ==> down.rd == down.wr || down.rd == 0
    {
      hide pend.Contents, pend.Valid, EncodeAll, Stream, BlockBytes, down.Live, host.Fits, Swapped, FromHost;
      var some := AwaitBytes();
      if !some {
        return None, 0;
      }
      n := Min(size, down.ReadSize());
      var p := Deliver(n);
      r := Some(p);
    }
  }
}
