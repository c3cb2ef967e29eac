/**
 Host file calls: a command packet goes up, flushed so that the host sees it, and the
 response comes down as plain bytes.
 */
module HostFileIo {
  import opened Bytes
  import opened Packets
  import opened Membufs
  import opened AppTrace

  const CMD_FREAD: byte := 3

  ghost predicate Apart(proto: Proto, buf: array<byte>)
    reads proto`down
  {
    buf != proto.block0 && buf != proto.block1 && buf != proto.pend.data && buf != proto.down.data
  }

  /** A successful call has stored exactly the next `len` bytes of the host's stream, from `at` on. */
  method RspRecv(proto: Proto, mem: array<byte>, at: nat, len: nat) returns (e: Error, ghost got: seq<byte>)
    requires proto.Valid() && Apart(proto, mem) && at + len <= mem.Length
    modifies proto`inBlock, proto`markers, proto`exposed, proto`readBefore, proto`delivered
    modifies proto.host, proto.pend, proto.down, proto.down.data, proto.block0, proto.block1, mem
    ensures proto.Valid() && proto.host.After(old(proto.host.swapAt), old(proto.host.pendAt), old(proto.host.clockAt))
    ensures proto.log == old(proto.log)
    ensures old(proto.exposed) <= proto.exposed && proto.CameMeanwhile()
    ensures e == Ok || (e == Timeout && proto.host.TimedOut())
    ensures |got| <= len && (e.Ok? <==> |got| == len)
    ensures proto.delivered == old(proto.delivered) + got && mem[..] == Splice(old(mem[..]), at, got)
    ensures len <= old(proto.Waiting()) ==> e.Ok? && old(proto.Waiting()) - len <= proto.Waiting()
  {
    hide proto.Core, proto.Stream, proto.Waiting, EncodeAll, Splice;
    var totRd := 0;
    got := [];
    SpliceNothing(mem[..], at);
    while totRd < len
      invariant |got| == totRd <= len
      invariant proto.Valid() && proto.host.After(old(proto.host.swapAt), old(proto.host.pendAt), old(proto.host.clockAt))
      invariant proto.log == old(proto.log)
      invariant old(proto.exposed) <= proto.exposed && proto.CameMeanwhile()
      invariant len <= old(proto.Waiting()) ==> old(proto.Waiting()) - totRd <= proto.Waiting()
      invariant proto.delivered == old(proto.delivered) + got && mem[..] == Splice(old(mem[..]), at, got)
    {
      var rdSize;
      ghost var more;
      e, rdSize, more := Read(proto, mem, at + totRd, len - totRd);
      Associates(old(proto.delivered), got, more);
      SpliceOn(old(mem[..]), at, got, more);
      got := got + more;
      if e != Ok {
        return;
      }
      totRd := totRd + rdSize;
    }
    e := Ok;
  }

  /** The command has left: the host was given every byte that was ever allocated. */
  method CmdSend(proto: Proto, core: nat, cmd: byte, args: seq<byte>) returns (e: Error)
    requires proto.Valid() && core < 2
    modifies proto`inBlock, proto`markers, proto`exposed, proto`readBefore, proto`log
    modifies proto.host, proto.pend, proto.pend.data, proto.down, proto.down.data, proto.block0, proto.block1
    ensures proto.Valid() && proto.host.After(old(proto.host.swapAt), old(proto.host.pendAt), old(proto.host.clockAt))
    ensures proto.delivered == old(proto.delivered)
    ensures old(proto.exposed) <= proto.exposed && proto.Came()
    ensures e != InvalidArg && (e == Timeout ==> proto.host.TimedOut())
    ensures e == NoMem ==> proto.log == old(proto.log)
    ensures e != NoMem ==> proto.log == old(proto.log) + [Packet(core, [cmd] + args, core * 0x8000 + |args| + 1)]
    ensures e.Ok? ==> proto.exposed == EncodeAll(proto.log)
    ensures old(proto.Quiet(HDR_SIZE + |args| + 1) && proto.host.NextSwap().Ready?) ==> e.Ok?
  {
    hide proto.Core, proto.Stream, proto.Held, proto.Quiet, EncodeAll;
    e := Write(proto, core, [cmd] + args);
    if e != Ok {
      return;
    }
    var ok := proto.FlushNolock(0);
    if !ok {
      return Timeout;
    }
  }

  /** How a call to read a file ends. */
  datatype FReadResult = Done(n: nat) | Failed(error: Error)

  /** Reads from a file of the host into the `size` bytes of `mem` from `at` on; behind that buffer
      the memory goes on. What comes back is the size word and the data that the host sent next,
      and the host was shown the whole command. Nothing compares the announced size with the
      buffer's: what is `stored` stays inside the buffer if that size does, and otherwise a call
      that succeeds has overwritten what lies behind. */
  method FRead(proto: Proto, core: nat, file: nat, mem: array<byte>, at: nat, size: nat)
    returns (r: FReadResult, ghost announced: Option<nat>, ghost stored: seq<byte>)
    requires proto.Valid() && core < 2 && file < 0x1_0000_0000 && size < 0x1_0000_0000
    requires Apart(proto, mem) && at + 0x1_0000_0000 <= mem.Length
    modifies proto`inBlock, proto`markers, proto`exposed, proto`readBefore, proto`log, proto`delivered
    modifies proto.host, proto.pend, proto.pend.data, proto.down, proto.down.data, proto.block0, proto.block1, mem
    ensures proto.Valid() && proto.CameMeanwhile() && old(proto.host.swapAt) <= proto.host.swapAt
    ensures announced.Some? ==>
              var pkt := Packet(core, [3] + (Le32(file) + Le32(size)), core * 0x8000 + 9);
              && proto.log == old(proto.log) + [pkt] && Parse(proto.exposed) == (proto.log, [])
              && announced.value < 0x1_0000_0000 && |stored| <= announced.value
              && proto.delivered == old(proto.delivered) + (Le32(announced.value) + stored)
    ensures announced.None? ==> stored == []
    ensures at + |stored| <= mem.Length && mem[..] == Splice(old(mem[..]), at, stored)
    ensures r.Done? ==> announced == Some(r.n) && |stored| == r.n
    ensures old(proto.Quiet(HDR_SIZE + 9) && proto.host.NextSwap().Ready? && proto.Waiting() >= 4) ==>
              announced.Some? && (old(proto.Waiting()) >= 4 + announced.value ==> r.Done?)
  {
    hide proto.Core, proto.Stream, proto.Waiting, proto.Quiet, Parse, EncodeAll, Le32, Splice;
    announced, stored := None, [];
    SpliceNothing(mem[..], at);
    var e := CmdSend(proto, core, CMD_FREAD, Le32(file) + Le32(size));
    if e != Ok {
      return Failed(e), announced, stored;
    }
    proto.RingGrows();
    ghost var all, word := proto.exposed, [];
    var resp;
    e, resp, word := RecvWord(proto);
    if e != Ok {
      return Failed(e), announced, stored;
    }
    announced := Some(resp);
    ShownAll(proto, all);
    if resp > 0 {
      e, stored := RspRecv(proto, mem, at, resp);
      Associates(old(proto.delivered), Le32(resp), stored);
      ShownAll(proto, all);
      if e != Ok {
        return Failed(e), announced, stored;
      }
    } else {
      assert Le32(resp) + [] == Le32(resp);
    }
    r := Done(resp);
  }

  /** The size word of an answer. */
  method RecvWord(proto: Proto) returns (e: Error, v: nat, ghost got: seq<byte>)
    requires proto.Valid()
    modifies proto`inBlock, proto`markers, proto`exposed, proto`readBefore, proto`delivered
    modifies proto.host, proto.pend, proto.down, proto.down.data, proto.block0, proto.block1
    ensures proto.Valid() && old(proto.host.swapAt) <= proto.host.swapAt && proto.log == old(proto.log)
    ensures old(proto.exposed) <= proto.exposed && proto.CameMeanwhile()
    ensures proto.delivered == old(proto.delivered) + got && v < 0x1_0000_0000 && (e.Ok? ==> got == Le32(v))
    ensures 4 <= old(proto.Waiting()) ==> e.Ok? && old(proto.Waiting()) - 4 <= proto.Waiting()
  {
    hide proto.Core, proto.Stream, proto.Waiting, EncodeAll, Le32, Splice;
    var word := new byte[4];
    ghost var was := word[..];
    e, got := RspRecv(proto, word, 0, 4);
    v := 0;
    if e == Ok {
      v := FromLe32(word[..]);
      SpliceHas(was, 0, got);
      assert word[..][0..4] == word[..];
    }
  }

  lemma ShownAll(proto: Proto, all: seq<byte>)
    requires proto.Valid() && all == EncodeAll(proto.log) && all <= proto.exposed
    ensures Parse(proto.exposed) == (proto.log, [])
  {
    hide proto.Core, proto.Stream, Parse, EncodeAll;
    proto.ExposedIsPrefix();
    assert proto.exposed == all;
    ParseOfAll(proto.log);
  }

  /** A host that answers a read of four bytes with the size word five, and five bytes. */
  function TooMuch(): (chunk: seq<byte>)
    ensures |chunk| == 9
  {
    Le32(5) + [1, 2, 3, 4, 5]
  }

  function Answer(pending: bool): (a: SwapAnswer)
    ensures a.Ready? && a.Sized(16) && (pending ==> a.Chunk() == TooMuch())
  {
    var left := Le16(9) + TooMuch() + seq(5, _ => 0);
    var a := Ready(left, seq(REACH, _ => 0), pending);
    assert left[..2] == Le16(9) && left[2..11] == TooMuch();
    PartOfLeft(left, a.behind, 2, 9);
    Le16Injective(9);
    a
  }

  /** What is read first is the first chunk of the host. */
  lemma FirstRead(proto: Proto)
    requires proto.Valid() && proto.Offered() != [] && |proto.Offered()[0]| <= proto.down.Cap()
    ensures |proto.delivered| <= |proto.Offered()[0]| ==> proto.delivered <= proto.Offered()[0]
    ensures |proto.Offered()[0]| <= |proto.delivered| ==> proto.Offered()[0] <= proto.delivered
  {
    hide proto.Core, proto.Stream, EncodeAll, Taken;
    proto.DeliveredFromHost();
    var cap, chunks, r := proto.down.Cap(), proto.Offered(), proto.readBefore;
    TakenGrows(cap, chunks, r, 1);
    TakenFirst(cap, chunks[..1], r[..1]);
  }

  lemma TakenFirst(cap: nat, chunks: seq<seq<byte>>, r: seq<nat>)
    requires |chunks| == |r| == 1 && |chunks[0]| <= cap
    ensures Taken(cap, chunks, r) == chunks[0]
  {
    assert Taken(cap, chunks[..0], r[..0]) == [];
  }

  lemma AnnouncedFive(v: nat, rest: seq<byte>)
    requires v < 0x1_0000_0000 && (Le32(v) + rest <= TooMuch() || TooMuch() <= Le32(v) + rest)
    ensures v == 5 && (|rest| == 5 ==> rest == [1, 2, 3, 4, 5])
  {
    hide Le32;
    var all := Le32(v) + rest;
    assert all[0] == TooMuch()[0] && all[1] == TooMuch()[1] && all[2] == TooMuch()[2] && all[3] == TooMuch()[3];
    assert Le32(v) == Le32(5);
    Le32Injective(v);
    Le32Injective(5);
    assert |rest| == 5 ==> all == TooMuch() && rest == all[4..] && TooMuch()[4..] == [1, 2, 3, 4, 5];
  }

  /** The overrun is real: five bytes are stored in a buffer of four. */
  method AnnouncedTooMuch(mem: array<byte>) returns (r: FReadResult)
    requires 0x1_0000_0000 <= mem.Length
    modifies mem
    ensures r == Done(5) && mem[..] == Splice(old(mem[..]), 0, [1, 2, 3, 4, 5])
  {
    hide Proto.Core, Proto.Stream, EncodeAll, Parse, Taken, Le32, TooMuch, Proto.Waiting, Proto.Quiet, Splice;
    var proto := AnsweredEarly();
    ghost var announced, stored;
    r, announced, stored := FRead(proto, 0, 0, mem, 0, 4);
    proto.host.OffersGrow(0, 1, proto.host.swapAt);
    FirstRead(proto);
    AnnouncedFive(announced.value, stored);
  }

  method AnsweredEarly() returns (proto: Proto)
    ensures proto.Valid() && proto.Quiet(HDR_SIZE + 9) && proto.host.NextSwap().Ready? && proto.Waiting() >= 9
    ensures proto.since == 0 && proto.host.swapAt == 1 && proto.delivered == []
    ensures proto.host.Offers(0, 1) == [TooMuch()] && proto.down.Cap() == 15 && Fresh(proto)
  {
    hide Proto.Core, Proto.Stream, EncodeAll, Taken, Le32, Answer, TooMuch;
    proto := Started();
    proto.OffersNext(0);
    var ok := proto.Swap();
    TakenFirst(proto.down.Cap(), proto.Offered(), proto.readBefore);
    proto.DeliveredFromHost();
  }

  twostate predicate Fresh(new proto: Proto)
    reads proto`down
  {
    && fresh(proto.block0) && fresh(proto.block1) && fresh(proto.pend) && fresh(proto.pend.data)
    && fresh(proto) && fresh(proto.host) && fresh(proto.down) && fresh(proto.down.data)
  }

  method Started() returns (proto: Proto)
    ensures proto.Valid() && proto.Quiet(16) && Fresh(proto) && proto.down.Cap() == 15 && proto.Size() == 16
    ensures proto.since == proto.host.swapAt == 0 && proto.delivered == [] && proto.readBefore == []
    ensures proto.host.swaps == [Answer(true), Answer(false)]
  {
    hide Proto.Core, Proto.Stream, EncodeAll, Taken, Le32, Answer, TooMuch;
    var b0, b1, pendingData, storage := new byte[16], new byte[16], new byte[8], new byte[16];
    var host := new Host([Answer(true), Answer(false)], [], []);
    proto := new Proto(b0, b1, pendingData, host);
    proto.DownBufferConfig(storage);
  }

  datatype Op = Send(core: nat, data: seq<byte>) | Flush(minSz: nat) | Receive(size: nat) | Swap

  /** The packets of those `Send`s that reported success. */
  ghost function Sent(ops: seq<Op>, oks: seq<bool>): (ps: seq<Packet>)
    requires |ops| == |oks|
  {
    if ops == [] then []
    else
      var n := |ops| - 1;
      Sent(ops[..n], oks[..n])
      + if ops[n].Send? && oks[n] then [Packet(ops[n].core, ops[n].data, ops[n].core * 0x8000 + |ops[n].data|)] else []
  }

  method Step(proto: Proto, op: Op) returns (ok: bool, got: seq<byte>)
    requires proto.Valid() && (op.Send? ==> op.core < 2)
    modifies proto`inBlock, proto`markers, proto`exposed, proto`readBefore, proto`log, proto`delivered
    modifies proto.host, proto.pend, proto.pend.data, proto.down, proto.down.data, proto.block0, proto.block1
    ensures proto.Valid() && proto.Came()
    ensures old(proto.exposed) <= proto.exposed
    ensures proto.log == old(proto.log) + Sent([op], [ok])
    ensures proto.delivered == old(proto.delivered) + got
    ensures op == Flush(0) && ok ==> proto.exposed == EncodeAll(proto.log)
  {
    hide proto.Core, proto.Stream, EncodeAll;
    got := [];
    match op
    case Send(core, data) =>
      var e := Write(proto, core, data);
      ok := e == Ok;
    case Flush(minSz) =>
      ok := proto.FlushNolock(minSz);
    case Swap =>
      ok := proto.Swap();
    case Receive(size) =>
      var buf := new byte[size];
      ghost var was, more := buf[..], [];
      var e, n;
      e, n, more := Read(proto, buf, 0, size);
      SpliceHas(was, 0, more);
      ok, got := e == Ok, buf[..n];
      assert buf[..][0..n] == got;
  }

  /** The chunks number `came[j]` up to `came[j + 1]` came in call `j`: what had been read before
      them is what the calls before it got. */
  ghost predicate CameIn(readBefore: seq<nat>, came: seq<nat>, gots: seq<seq<byte>>) {
    && |came| == |gots| + 1 && came[0] == 0 && came[|gots|] == |readBefore|
    && (forall j :: 0 <= j < |gots| ==> came[j] <= came[j + 1])
    && (forall j :: 0 <= j < |gots| ==> ReadWas(readBefore, came[j], came[j + 1], |Joined(gots[..j])|))
  }

  ghost predicate ReadWas(readBefore: seq<nat>, from: nat, to: nat, read: nat) {
    to <= |readBefore| && forall c :: from <= c < to ==> readBefore[c] == read
  }

  lemma CameNext(readBefore: seq<nat>, came: seq<nat>, gots: seq<seq<byte>>, readBefore': seq<nat>, got: seq<byte>)
    requires CameIn(readBefore, came, gots) && readBefore <= readBefore'
    requires forall c :: |readBefore| <= c < |readBefore'| ==> readBefore'[c] == |Joined(gots)|
    ensures CameIn(readBefore', came + [|readBefore'|], gots + [got]) && Joined(gots + [got]) == Joined(gots) + got
  {
    hide Joined;
    var came', gots' := came + [|readBefore'|], gots + [got];
    JoinedNext(gots, got);
    forall j | 0 <= j < |gots'|
      ensures came'[j] <= came'[j + 1] && ReadWas(readBefore', came'[j], came'[j + 1], |Joined(gots'[..j])|)
    {
      assert gots'[..j] == gots[..j] && gots[..|gots|] == gots;
      if j < |gots| {
        assert came[j] <= came[j + 1] && ReadWas(readBefore, came[j], came[j + 1], |Joined(gots[..j])|);
      }
    }
  }

  lemma JoinedNext(gots: seq<seq<byte>>, got: seq<byte>)
    ensures Joined(gots + [got]) == Joined(gots) + got
  {
    assert (gots + [got])[..|gots|] == gots;
  }

  /** Any run of the protocol from its start, with any answers of the hardware: what the
      host can cut out of the exposed bytes is a prefix of the packets that were sent, each
      one complete; all of them once a full flush has succeeded. What the application got, and
      then what waits in the down ring, is what a queue takes of the chunks the host sent, and
      that is all of them exactly if there was room for each when it came. */
  method Run(proto: Proto, ops: seq<Op>) returns (oks: seq<bool>, gots: seq<seq<byte>>, ghost came: seq<nat>)
    requires proto.Valid() && proto.log == [] && proto.delivered == [] && proto.readBefore == []
    requires forall i :: 0 <= i < |ops| && ops[i].Send? ==> ops[i].core < 2
    modifies proto`inBlock, proto`markers, proto`exposed, proto`readBefore, proto`log, proto`delivered
    modifies proto.host, proto.pend, proto.pend.data, proto.down, proto.down.data, proto.block0, proto.block1
    ensures |oks| == |gots| == |ops| && proto.Valid() && proto.since == old(proto.since) && proto.down == old(proto.down)
    ensures Parse(proto.exposed).0 <= Sent(ops, oks)
    ensures forall i :: 0 <= i < |Sent(ops, oks)| ==> Sent(ops, oks)[i].Complete()
    ensures ops != [] && ops[|ops| - 1] == Flush(0) && oks[|ops| - 1] ==> Parse(proto.exposed) == (Sent(ops, oks), [])
    ensures Joined(gots) + proto.down.Contents() == Taken(proto.down.Cap(), proto.Offered(), proto.readBefore)
    ensures CameIn(proto.readBefore, came, gots)
    ensures Joined(gots) + proto.down.Contents() == Joined(proto.Offered()) <==>
            AllFit(proto.down.Cap(), proto.Offered(), proto.readBefore)
  {
    hide proto.Core, proto.Stream, EncodeAll, Parse, Taken, Joined, AllFit, CameIn;
    oks, gots, came := [], [], [0];
    NothingCame();
    var i := 0;
    while i < |ops|
      invariant 0 <= i <= |ops| && |oks| == |gots| == i
      invariant proto.Valid() && proto.log == Sent(ops[..i], oks)
      invariant proto.delivered == Joined(gots) && CameIn(proto.readBefore, came, gots)
      invariant proto.since == old(proto.since) && proto.down == old(proto.down)
      invariant 0 < i && ops[i - 1] == Flush(0) && oks[i - 1] ==> proto.exposed == EncodeAll(proto.log)
    {
      ghost var before := proto.readBefore;
      var ok, piece := Step(proto, ops[i]);
      CameNext(before, came, gots, proto.readBefore, piece);
      SentAppend(ops[..i], oks, ops[i], ok);
      assert ops[..i + 1] == ops[..i] + [ops[i]];
      oks, gots, came := oks + [ok], gots + [piece], came + [|proto.readBefore|];
      i := i + 1;
    }
    assert ops[..i] == ops;
    var k := proto.HostSeesPrefix();
    ParseOfAll(proto.log);
    SentAreComplete(ops, oks);
    proto.DeliveredFromHost();
    TakenIsAll(proto.down.Cap(), proto.Offered(), proto.readBefore);
  }

  lemma NothingCame()
    ensures Joined([]) == [] && CameIn([], [0], [])
  {
  }

  lemma SentAppend(ops: seq<Op>, oks: seq<bool>, op: Op, ok: bool)
    requires |ops| == |oks|
    ensures Sent(ops + [op], oks + [ok]) == Sent(ops, oks) + Sent([op], [ok])
  {
    assert (ops + [op])[..|ops|] == ops && (oks + [ok])[..|ops|] == oks;
    assert [op][..0] == [] && [ok][..0] == [];
  }

  lemma {:induction false} SentAreComplete(ops: seq<Op>, oks: seq<bool>)
    requires |ops| == |oks|
    ensures forall i :: 0 <= i < |Sent(ops, oks)| ==> Sent(ops, oks)[i].Complete()
  {
    if ops != [] {
      SentAreComplete(ops[..|ops| - 1], oks[..|ops| - 1]);
    }
  }
}
