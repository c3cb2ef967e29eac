/**
 The framing of the trace stream: every chunk of user data is preceded by a header
 with the size that was allocated (its top bit the core number) and the size that was
 written, both 16-bit little-endian words.
 */
module Packets {
  import opened Bytes

  const HDR_SIZE: nat := 4

  /** One allocated packet; `wrSz` is the header's second word. */
  datatype Packet = Packet(core: nat, payload: seq<byte>, wrSz: nat) {
    ghost predicate Valid() {
      core < 2 && |payload| < 0x8000 && wrSz < 0x1_0000
    }

    function BlockSz(): nat {
      core * 0x8000 + |payload|
    }

    /** The packet was filled in before it was sent off: the host sees equal words. */
    predicate Complete() {
      wrSz == BlockSz()
    }
  }

  ghost predicate AllValid(ps: seq<Packet>) {
    forall i :: 0 <= i < |ps| ==> ps[i].Valid()
  }

  ghost function Encode(p: Packet): (s: seq<byte>)
    requires p.Valid()
    ensures |s| == HDR_SIZE + |p.payload|
  {
    Le16(p.BlockSz()) + Le16(p.wrSz) + p.payload
  }

  ghost function EncodeAll(ps: seq<Packet>): (s: seq<byte>)
    requires AllValid(ps)
  {
    if ps == [] then [] else EncodeAll(ps[..|ps| - 1]) + Encode(ps[|ps| - 1])
  }

  lemma EncodeAppend(ps: seq<Packet>, p: Packet)
    requires AllValid(ps) && p.Valid()
    ensures EncodeAll(ps + [p]) == EncodeAll(ps) + Encode(p)
  {
    assert (ps + [p])[..|ps|] == ps;
  }

  lemma {:induction false} EncodeFront(p: Packet, ps: seq<Packet>)
    requires AllValid(ps) && p.Valid()
    ensures EncodeAll([p] + ps) == Encode(p) + EncodeAll(ps)
  {
    hide Encode;
    if ps == [] {
      assert [p] + ps == [p];
      assert EncodeAll([p][..0]) == [];
    } else {
      var n := |ps| - 1;
      EncodeFront(p, ps[..n]);
      EncodeAppend([p] + ps[..n], ps[n]);
      assert [p] + ps == ([p] + ps[..n]) + [ps[n]];
      assert (Encode(p) + EncodeAll(ps[..n])) + Encode(ps[n]) == Encode(p) + (EncodeAll(ps[..n]) + Encode(ps[n]));
    }
  }

  /** The packet at the start of `s`, if all of it has arrived. */
  function ParseHead(s: seq<byte>): (r: Option<Packet>)
    ensures r.Some? ==> r.value.Valid() && Encode(r.value) <= s
  {
    if |s| < HDR_SIZE then None
    else
      var blockSz := FromLe16(s[..2]);
      var len := blockSz % 0x8000;
      if |s| < HDR_SIZE + len then None
      else
        var p := Packet(blockSz / 0x8000, s[HDR_SIZE..HDR_SIZE + len], FromLe16(s[2..4]));
        assert Encode(p) == s[..HDR_SIZE + len];
        Some(p)
  }

  lemma ParseHeadOfEncoded(p: Packet, s: seq<byte>)
    requires p.Valid() && Encode(p) <= s
    ensures ParseHead(s) == Some(p)
  {
    var len := |p.payload|;
    assert s[..2] == Le16(p.BlockSz());
    assert s[2..4] == Le16(p.wrSz);
    Le16Injective(p.BlockSz());
    Le16Injective(p.wrSz);
    assert p.BlockSz() % 0x8000 == len && p.BlockSz() / 0x8000 == p.core;
    assert s[HDR_SIZE..HDR_SIZE + len] == Encode(p)[HDR_SIZE..] == p.payload;
  }

  lemma ParseHeadOfCut(p: Packet, s: seq<byte>)
    requires p.Valid() && s < Encode(p)
    ensures ParseHead(s) == None
  {
    if |s| >= HDR_SIZE {
      assert s[..2] == Encode(p)[..2] == Le16(p.BlockSz());
      Le16Injective(p.BlockSz());
    }
  }

  /** How the host cuts the byte stream into packets; what is left over is the start
      of a packet whose end has not arrived yet. */
  function Parse(s: seq<byte>): (r: (seq<Packet>, seq<byte>))
    ensures AllValid(r.0)
    decreases |s|
  {
    match ParseHead(s)
    case None => ([], s)
    case Some(p) =>
      var (ps, rest) := Parse(s[HDR_SIZE + |p.payload|..]);
      ([p] + ps, rest)
  }

  /** The host invents nothing: what it parsed and what it left over is the stream. */
  lemma {:induction false} ParseIsSound(s: seq<byte>)
    ensures s == EncodeAll(Parse(s).0) + Parse(s).1
    decreases |s|
  {
    hide ParseHead, Encode, EncodeAll;
    match ParseHead(s)
    case None =>
      EncodeNothing();
    case Some(p) =>
      var e, tail := Encode(p), s[|Encode(p)|..];
      ParseIsSound(tail);
      EncodeFront(p, Parse(tail).0);
      assert s == e + tail;
  }

  /** Wherever the stream of packets `ps` is cut, the host has exactly the packets that
      lie wholly before the cut, in order, and an unfinished piece of the next one. */
  lemma {:induction false} ParseOfPrefix(ps: seq<Packet>, s: seq<byte>) returns (k: nat)
    requires AllValid(ps) && s <= EncodeAll(ps)
    ensures k <= |ps| && Parse(s).0 == ps[..k]
    ensures k == |ps| <==> s == EncodeAll(ps)
    ensures k < |ps| ==> Parse(s).1 < Encode(ps[k])
    decreases |ps|
  {
    hide ParseHead, Encode, EncodeAll;
    EncodeNothing();
    if ps == [] {
      k := 0;
      assert ParseHead([]) == None;
    } else {
      var p, tail := ps[0], ps[1..];
      EncodeFront(p, tail);
      assert ps == [p] + tail;
      var e := Encode(p);
      if |s| < |e| {
        k := 0;
        ParseHeadOfCut(p, s);
      } else {
        k := ParseOfPrefix(tail, s[|e|..]);
        ParseHeadOfEncoded(p, s);
        assert s == e + s[|e|..];
        assert ps[..k + 1] == [p] + tail[..k];
        k := k + 1;
      }
    }
  }

  /** A whole stream parses back to exactly the packets it was made of. */
  lemma ParseOfAll(ps: seq<Packet>)
    requires AllValid(ps)
    ensures Parse(EncodeAll(ps)) == (ps, [])
  {
    hide Parse, Encode;
    var s := EncodeAll(ps);
    var k := ParseOfPrefix(ps, s);
    ParseIsSound(s);
    assert ps[..|ps|] == ps;
  }

  /** A packet that lies wholly before the cut is among those the host has. */
  lemma WholeInside(ps: seq<Packet>, s: seq<byte>, k: nat)
    requires AllValid(ps) && s <= EncodeAll(ps) && k < |ps| && |EncodeAll(ps[..k + 1])| <= |s|
    ensures k < |Parse(s).0| && Parse(s).0[k] == ps[k]
  {
    hide Parse, Encode, EncodeAll;
    var n := ParseOfPrefix(ps, s);
    ParseIsSound(s);
    if n <= k {
      StreamAround(ps, n);
      EncodeGrows(ps, n + 1, k + 1);
    }
  }

  lemma {:induction false} EncodeGrows(ps: seq<Packet>, a: nat, b: nat)
    requires AllValid(ps) && a <= b <= |ps|
    ensures |EncodeAll(ps[..a])| <= |EncodeAll(ps[..b])|
    decreases b - a
  {
    if a < b {
      hide Encode, EncodeAll;
      EncodeGrows(ps, a, b - 1);
      StreamAround(ps, b - 1);
    }
  }

  lemma EncodeNothing()
    ensures EncodeAll([]) == []
    ensures ParseHead([]) == None
  {
  }

  lemma {:induction false} EncodeConcat(a: seq<Packet>, b: seq<Packet>)
    requires AllValid(a) && AllValid(b)
    ensures AllValid(a + b) && EncodeAll(a + b) == EncodeAll(a) + EncodeAll(b)
    decreases |b|
  {
    hide Encode, EncodeAll;
    EncodeNothing();
    if b == [] {
      assert a + b == a;
    } else {
      var init, last := b[..|b| - 1], b[|b| - 1];
      EncodeConcat(a, init);
      assert b == init + [last] && a + b == (a + init) + [last];
      EncodeAppend(init, last);
      EncodeAppend(a + init, last);
      assert (EncodeAll(a) + EncodeAll(init)) + Encode(last) == EncodeAll(a) + (EncodeAll(init) + Encode(last));
    }
  }

  /** Where packet `k` starts in the stream. */
  ghost function Start(ps: seq<Packet>, k: nat): (pos: nat)
    requires AllValid(ps) && k <= |ps|
  {
    |EncodeAll(ps[..k])|
  }

  /** The stream around packet `k`. */
  lemma StreamAround(ps: seq<Packet>, k: nat)
    requires AllValid(ps) && k < |ps|
    ensures EncodeAll(ps) == EncodeAll(ps[..k]) + (Encode(ps[k]) + EncodeAll(ps[k + 1..]))
    ensures EncodeAll(ps[..k + 1]) == EncodeAll(ps[..k]) + Encode(ps[k])
  {
    hide Encode, EncodeAll;
    var init, p, tail := ps[..k], ps[k], ps[k + 1..];
    AllValidAround(ps, k);
    hide AllValid;
    SplitAt(ps, k);
    EncodeFront(p, tail);
    EncodeConcat(init, [p] + tail);
    EncodeAppend(init, p);
  }

  lemma SplitAt(ps: seq<Packet>, k: nat)
    requires k < |ps|
    ensures ps == ps[..k] + ([ps[k]] + ps[k + 1..]) && ps[..k + 1] == ps[..k] + [ps[k]]
  {
  }

  lemma AllValidAround(ps: seq<Packet>, k: nat)
    requires AllValid(ps) && k < |ps|
    ensures ps[k].Valid() && AllValid(ps[..k]) && AllValid(ps[k + 1..]) && AllValid([ps[k]] + ps[k + 1..])
  {
  }

  /** Overwriting the payload, or the written size, of a packet in place. */
  lemma Patch(ps: seq<Packet>, k: nat, payload: seq<byte>, wrSz: nat)
    requires AllValid(ps) && k < |ps| && |payload| == |ps[k].payload| && wrSz < 0x1_0000
    ensures var s, at := EncodeAll(ps), Start(ps, k);
            && at + HDR_SIZE + |payload| <= |s|
            && Splice(s, at + HDR_SIZE, payload) == EncodeAll(ps[k := ps[k].(payload := payload)])
            && Splice(s, at + 2, Le16(wrSz)) == EncodeAll(ps[k := ps[k].(wrSz := wrSz)])
  {
    hide EncodeAll, Encode, Splice;
    var p, a, b := ps[k], EncodeAll(ps[..k]), EncodeAll(ps[k + 1..]);
    StreamAround(ps, k);
    PatchOne(p, payload, wrSz);
    PatchInside(a, Encode(p), b, HDR_SIZE, payload);
    PatchInside(a, Encode(p), b, 2, Le16(wrSz));
    Replaced(ps, k, p.(payload := payload));
    Replaced(ps, k, p.(wrSz := wrSz));
  }

  lemma PatchInside(a: seq<byte>, b: seq<byte>, c: seq<byte>, at: nat, bs: seq<byte>)
    requires at + |bs| <= |b|
    ensures Splice(a + (b + c), |a| + at, bs) == a + (Splice(b, at, bs) + c)
  {
    hide Splice;
    SpliceLeft(b, c, at, bs);
    SpliceRight(a, b + c, at, bs);
  }

  lemma Replaced(ps: seq<Packet>, k: nat, p: Packet)
    requires AllValid(ps) && k < |ps| && p.Valid()
    ensures AllValid(ps[k := p]) && EncodeAll(ps[k := p]) == EncodeAll(ps[..k]) + (Encode(p) + EncodeAll(ps[k + 1..]))
  {
    hide Encode, EncodeAll;
    var qs := ps[k := p];
    assert qs[..k] == ps[..k] && qs[k + 1..] == ps[k + 1..];
    StreamAround(qs, k);
  }

  lemma FirstWord(ps: seq<Packet>, k: nat)
    requires AllValid(ps) && k < |ps|
    ensures var s, at := EncodeAll(ps), Start(ps, k); at + 2 <= |s| && s[at..at + 2] == Le16(ps[k].BlockSz())
  {
    hide EncodeAll;
    StreamAround(ps, k);
    var a, e, b := EncodeAll(ps[..k]), Encode(ps[k]), EncodeAll(ps[k + 1..]);
    assert (a + (e + b))[|a|..|a| + 2] == e[..2];
  }

  /** Packets of the same sizes start at the same places. */
  ghost predicate SameSizes(ps: seq<Packet>, qs: seq<Packet>) {
    |ps| <= |qs| && forall i :: 0 <= i < |ps| ==> |qs[i].payload| == |ps[i].payload|
  }

  lemma {:induction false} SameStart(ps: seq<Packet>, qs: seq<Packet>, k: nat)
    requires AllValid(ps) && AllValid(qs) && SameSizes(ps, qs) && k <= |ps|
    ensures Start(qs, k) == Start(ps, k)
  {
    if k > 0 {
      hide Start, AllValid;
      SameStart(ps, qs, k - 1);
      NextStart(ps, k - 1);
      NextStart(qs, k - 1);
    } else {
      assert ps[..0] == qs[..0];
    }
  }

  lemma NextStart(ps: seq<Packet>, k: nat)
    requires AllValid(ps) && k < |ps|
    ensures Start(ps, k + 1) == Start(ps, k) + HDR_SIZE + |ps[k].payload|
  {
    hide EncodeAll;
    StreamAround(ps, k);
  }

  lemma PatchOne(p: Packet, payload: seq<byte>, wrSz: nat)
    requires p.Valid() && |payload| == |p.payload| && wrSz < 0x1_0000
    ensures Splice(Encode(p), HDR_SIZE, payload) == Encode(p.(payload := payload))
    ensures Splice(Encode(p), 2, Le16(wrSz)) == Encode(p.(wrSz := wrSz))
  {
  }

  /** Writing a header over the first bytes of `raw` makes a packet of what follows. */
  lemma HeaderOver(core: nat, raw: seq<byte>)
    requires core < 2 && HDR_SIZE <= |raw| < 0x8000
    ensures var p := Packet(core, raw[HDR_SIZE..], 0);
            Splice(Splice(raw, 0, Le16(p.BlockSz())), 2, Le16(0)) == Encode(p)
  {
    var p := Packet(core, raw[HDR_SIZE..], 0);
    var once := Splice(raw, 0, Le16(p.BlockSz()));
    assert once[..2] == Le16(p.BlockSz()) && once[HDR_SIZE..] == raw[HDR_SIZE..];
  }
}
