/**
 The tracing calls of the application.
 */
module AppTrace {
  import opened Bytes
  import opened Packets
  import opened Membufs

  datatype Error = Ok | InvalidArg | NoMem | Timeout

  /** Sends `data` off as one packet: get, fill, put. */
  method Write(proto: Proto, core: nat, data: seq<byte>) returns (e: Error)
    requires proto.Valid() && core < 2
    modifies proto`inBlock, proto`markers, proto`exposed, proto`readBefore, proto`log
    modifies proto.host, proto.pend, proto.pend.data, proto.down, proto.down.data, proto.block0, proto.block1
    ensures proto.Valid() && proto.host.After(old(proto.host.swapAt), old(proto.host.pendAt), old(proto.host.clockAt))
    ensures proto.delivered == old(proto.delivered)
    ensures old(proto.exposed) <= proto.exposed && proto.Came()
    ensures e == InvalidArg <==> data == []
    ensures e.Ok? ==> proto.log == old(proto.log) + [Packet(core, data, core * 0x8000 + |data|)]
    ensures !e.Ok? ==> proto.log == old(proto.log)
    ensures proto.Steady() && SameSizes(old(proto.log), proto.log)
    ensures e == NoMem ==>
              || |data| + HDR_SIZE > proto.Size()
              || (proto.NoRoom(|data| + HDR_SIZE) && (proto.host.TimedOut() || proto.HandedOver()))
    ensures e != Timeout
    ensures old(proto.Quiet(HDR_SIZE + |data|)) && data != [] ==>
              e.Ok? && proto.Quiet(0) && proto.Marker() > 0 && unchanged(proto.host)
  {
    hide proto.Core, proto.NoRoom, proto.Stream, proto.Held, proto.HandedOver, proto.host.TimedOut, EncodeAll, AllValid;
    if data == [] {
      return InvalidArg;
    }
    var p := proto.UpBufferGet(core, |data|);
    if p.None? {
      return NoMem;
    }
    ghost var k := |old(proto.log)|;
    proto.Fill(p.value, k, data);
    proto.UpBufferPut(p.value, k);
    e := Ok;
  }

  /** Reads up to `size` of the next bytes from the host into `buf`, from `at` on. */
  method Read(proto: Proto, buf: array<byte>, at: nat, size: nat) returns (e: Error, n: nat, ghost got: seq<byte>)
    requires proto.Valid() && at + size <= buf.Length
    requires buf != proto.block0 && buf != proto.block1 && buf != proto.pend.data && buf != proto.down.data
    modifies proto`inBlock, proto`markers, proto`exposed, proto`readBefore, proto`delivered
    modifies proto.host, proto.pend, proto.down, proto.down.data, proto.block0, proto.block1, buf
    ensures proto.Valid() && proto.host.After(old(proto.host.swapAt), old(proto.host.pendAt), old(proto.host.clockAt))
    ensures proto.log == old(proto.log)
    ensures old(proto.exposed) <= proto.exposed && proto.Came()
    ensures e == InvalidArg <==> size == 0
    ensures e.Ok? <==> 0 < n
    ensures e == Timeout ==> proto.host.TimedOut()
    ensures proto.Steady()
    ensures |got| == n <= size && proto.delivered == old(proto.delivered) + got
    ensures buf[..] == Splice(old(buf[..]), at, got)
    ensures e != NoMem
    ensures old(proto.Waiting()) > 0 ==> proto.Waiting() == old(proto.Waiting()) - n && (e.Ok? || size == 0)
  {
    hide proto.Valid, proto.Core, proto.Stream, Splice;
    n, got := 0, [];
    SpliceNothing(buf[..], at);
    if size == 0 {
      return InvalidArg, 0, [];
    }
    var p;
    p, n := proto.DownBufferGet(size);
    if p.None? {
      return Timeout, 0, [];
    }
    got := proto.down.data[p.value..p.value + n];
    Copy(buf, at, proto.down.data[p.value..p.value + n]);
    e := Ok;
  }
}
