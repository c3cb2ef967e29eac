/**
 The two UTF-8 decoders of the display: one takes a byte at a time, one walks along a
 buffer. Masks and shifts of bit fields that do not overlap are written as arithmetic.
 */
module Utf8 {
  import opened Bytes

  /** A character of the basic plane, other than NUL. */
  type Code = c: nat | 0 < c < 0x1_0000 witness 1

  /** Section 3 of RFC 3629, up to three bytes. */
  function Encode(c: Code): (s: seq<byte>)
    ensures 1 <= |s| <= 3
  {
    if c < 0x80 then [c]
    else if c < 0x800 then [0xC0 + c / 64, 0x80 + c % 64]
    else [0xE0 + c / 4096, 0x80 + c / 64 % 64, 0x80 + c % 64]
  }

  function EncodeText(text: seq<Code>): (s: seq<byte>)
  {
    if text == [] then [] else Encode(text[0]) + EncodeText(text[1..])
  }

  /** The low bits of a byte. */
  function Low(c: byte, n: int): (r: int)
    requires n > 0
    ensures 0 <= r < n
  {
    var v: int := c;
    v % n
  }

  /** What the serial decoder remembers: how many bytes are missing, and the bits so far. */
  datatype State = State(missing: nat, bits: nat) {
    ghost predicate Valid() {
      && missing <= 2 && bits < 0x1_0000
      && (missing == 2 ==> bits % 4096 == 0) && (missing == 1 ==> bits % 64 == 0)
    }
  }

  /** One byte into the serial decoder: its new state, and a code or zero. */
  function Feed(s: State, c: byte): (r: (State, nat))
    requires s.Valid()
    ensures r.0.Valid()
  {
    if c < 0x80 then (s.(missing := 0), c)
    else if s.missing == 0 then
      if 0xC0 <= c < 0xE0 then
        TopBits(Low(c, 32), 32, 64);
        (State(1, Low(c, 32) * 64), 0)
      else if 0xE0 <= c < 0xF0 then
        TopBits(Low(c, 16), 16, 4096);
        (State(2, Low(c, 16) * 4096), 0)
      else (s, c)
    else if s.missing == 2 then
      MiddleBits(s.bits, Low(c, 64));
      (State(1, s.bits + Low(c, 64) * 64), 0)
    else
      Room(s.bits, 64);
      (State(0, s.bits + Low(c, 64)), s.bits + Low(c, 64))
  }

  lemma TopBits(l: int, n: int, m: int)
    requires 0 <= l < n && ((n == 32 && m == 64) || (n == 16 && m == 4096))
    ensures 0 <= l * m < 0x1_0000 && l * m % m == 0
  {
  }

  lemma MiddleBits(bits: int, l: int)
    requires 0 <= bits < 0x1_0000 && bits % 4096 == 0 && 0 <= l < 64
    ensures 0 <= bits + l * 64 < 0x1_0000 && (bits + l * 64) % 64 == 0
  {
    Room(bits, 4096);
    var k := bits / 4096;
    assert bits == 4096 * k;
    assert bits + l * 64 == 64 * (64 * k + l);
  }

  /** The low bits that are still missing are free. */
  lemma Room(bits: nat, m: int)
    requires (m == 64 || m == 4096) && bits % m == 0 && bits < 0x1_0000
    ensures bits + m <= 0x1_0000
  {
  }

  /** Bit patterns 110xxxxx and 1110xxxx start a sequence of two or three bytes. */
  predicate Starts(c: byte) {
    c / 32 == 6 || c / 16 == 14
  }

  /** A plain character ends whatever was begun; between characters, a byte that starts no sequence
      is given back as it is. */
  lemma FallsBack(s: State, c: byte)
    requires s.Valid()
    ensures c / 128 == 0 ==> Feed(s, c) == (State(0, s.bits), c)
    ensures s.missing == 0 && !Starts(c) ==> Feed(s, c) == (s, c)
    ensures s.missing == 0 && Starts(c) ==> Feed(s, c).0.missing > 0 && Feed(s, c).1 == 0
  {
  }

  /** All bytes through the serial decoder; a zero is no character. */
  function FeedAll(s: State, bytes: seq<byte>): (r: (State, seq<nat>))
    requires s.Valid()
    ensures r.0.Valid()
    decreases |bytes|
  {
    if bytes == [] then (s, [])
    else
      var (t, code) := Feed(s, bytes[0]);
      var (u, codes) := FeedAll(t, bytes[1..]);
      (u, (if code == 0 then [] else [code]) + codes)
  }

  lemma FeedFirst(s: State, c: byte, tail: seq<byte>)
    requires s.Valid()
    ensures var (t, code) := Feed(s, c);
            FeedAll(s, [c] + tail) == if code == 0 then FeedAll(t, tail) else (FeedAll(t, tail).0, [code] + FeedAll(t, tail).1)
  {
    hide Feed;
    assert ([c] + tail)[1..] == tail;
    assert [] + FeedAll(Feed(s, c).0, tail).1 == FeedAll(Feed(s, c).0, tail).1;
  }

  /** A number below 0x800 in two digits of base 64, the leading one below 32. */
  lemma TwoDigits(c: int)
    requires 0 <= c < 0x800
    ensures 0 <= c / 64 < 32 && 0 <= c % 64 < 64 && c / 64 * 64 + c % 64 == c
  {
  }

  /** A number below 0x10000 in three digits of base 64, the leading one below 16. */
  lemma ThreeDigits(c: int)
    requires 0 <= c < 0x1_0000
    ensures 0 <= c / 4096 < 16 && 0 <= c / 64 % 64 < 64 && 0 <= c % 64 < 64
    ensures c / 4096 * 4096 + c / 64 % 64 * 64 + c % 64 == c
  {
    var d := c / 64;
    assert c == d * 64 + c % 64 && 0 <= d < 1024;
    assert d == d / 64 * 64 + d % 64;
    assert d / 64 == c / 4096;
  }

  lemma LowOfSum(high: int, low: int, m: int)
    requires (m == 16 || m == 32 || m == 64) && 0 <= low < m && (high == 0x80 || high == 0xC0 || high == 0xE0)
    requires high % m == 0
    ensures (high + low) % m == low
  {
  }

  lemma TwoBytes(c: Code)
    requires 0x80 <= c < 0x800
    ensures var e := Encode(c);
            |e| == 2 && 0xC0 <= e[0] < 0xE0 && e[1] >= 0x80 && Low(e[0], 32) * 64 + Low(e[1], 64) == c
  {
    TwoDigits(c);
    LowOfSum(0xC0, c / 64, 32);
    LowOfSum(0x80, c % 64, 64);
  }

  lemma ThreeBytes(c: Code)
    requires 0x800 <= c
    ensures var e := Encode(c);
            && |e| == 3 && 0xE0 <= e[0] < 0xF0 && e[1] >= 0x80 && e[2] >= 0x80
            && Low(e[0], 16) * 4096 + Low(e[1], 64) * 64 + Low(e[2], 64) == c
  {
    ThreeDigits(c);
    LowOfSum(0xE0, c / 4096, 16);
    LowOfSum(0x80, c / 64 % 64, 64);
    LowOfSum(0x80, c % 64, 64);
  }

  /** The bits of a character, put together from its bytes. */
  lemma BitsOf(c: Code)
    ensures var e := Encode(c);
            && (|e| == 1 ==> e[0] == c < 0x80)
            && (|e| == 2 ==> 0xC0 <= e[0] < 0xE0 && e[1] >= 0x80 && Low(e[0], 32) * 64 + Low(e[1], 64) == c)
            && (|e| == 3 ==> 0xE0 <= e[0] < 0xF0 && e[1] >= 0x80 && e[2] >= 0x80
                             && Low(e[0], 16) * 4096 + Low(e[1], 64) * 64 + Low(e[2], 64) == c)
  {
    if c >= 0x800 {
      ThreeBytes(c);
    } else if c >= 0x80 {
      TwoBytes(c);
    }
  }

  lemma FeedOne(s: State, c: Code, tail: seq<byte>) returns (t: State)
    requires s.Valid() && s.missing == 0
    ensures t.Valid() && t.missing == 0
    ensures FeedAll(s, Encode(c) + tail) == (FeedAll(t, tail).0, [c] + FeedAll(t, tail).1)
  {
    hide FeedAll, Encode, Low;
    BitsOf(c);
    var e := Encode(c);
    t := Feed(s, e[0]).0;
    if |e| == 1 {
      assert e + tail == [e[0]] + tail;
      FeedFirst(s, e[0], tail);
    } else if |e| == 2 {
      var s1 := t;
      t := Feed(s1, e[1]).0;
      FeedFirst(s, e[0], [e[1]] + tail);
      FeedFirst(s1, e[1], tail);
      assert e + tail == [e[0]] + ([e[1]] + tail);
    } else {
      var s1 := t;
      var s2 := Feed(s1, e[1]).0;
      t := Feed(s2, e[2]).0;
      FeedFirst(s, e[0], [e[1]] + ([e[2]] + tail));
      FeedFirst(s1, e[1], [e[2]] + tail);
      FeedFirst(s2, e[2], tail);
      assert e + tail == [e[0]] + ([e[1]] + ([e[2]] + tail));
    }
  }

  /** The serial decoder gives an encoded text back, and ends between characters. */
  lemma {:induction false} SerialRoundTrip(s: State, text: seq<Code>)
    requires s.Valid() && s.missing == 0
    ensures FeedAll(s, EncodeText(text)).0.missing == 0
    ensures FeedAll(s, EncodeText(text)).1 == text
    decreases |text|
  {
    hide Feed, Encode;
    if text != [] {
      var t := FeedOne(s, text[0], EncodeText(text[1..]));
      SerialRoundTrip(t, text[1..]);
    }
  }

  class SerialDecoder {
    var utf8: bool
    var decoderState: nat
    var decoderBuffer: nat

    ghost function Now(): State
      reads this`decoderState, this`decoderBuffer
    {
      State(decoderState, decoderBuffer)
    }

    method Decode(c: byte) returns (code: nat)
      requires Now().Valid()
      modifies this`decoderState, this`decoderBuffer
      ensures Now().Valid()
      ensures (Now(), code) == if utf8 then Feed(old(Now()), c) else (old(Now()), c)
    {
      if !utf8 {
        return c;
      }
      if c < 0x80 {
        decoderState := 0;
        return c;
      }
      if decoderState == 0 {
        if 0xC0 <= c < 0xE0 {
          decoderBuffer := Low(c, 32) * 64;
          decoderState := 1;
          return 0;
        }
        if 0xE0 <= c < 0xF0 {
          decoderBuffer := Low(c, 16) * 4096;
          decoderState := 2;
          return 0;
        }
      } else {
        if decoderState == 2 {
          decoderBuffer := decoderBuffer + Low(c, 64) * 64;
          decoderState := decoderState - 1;
          return 0;
        } else {
          decoderBuffer := decoderBuffer + Low(c, 64);
          decoderState := 0;
          return decoderBuffer;
        }
      }
      decoderState := 0;
      return c;
    }
  }

  /** The character at `i` of a buffer and where the next one starts. */
  function DecodeAt(buf: seq<byte>, i: nat): (r: (nat, nat))
    requires i < |buf|
    ensures i < r.1 <= |buf|
  {
    var c := buf[i];
    if 0xC0 <= c < 0xE0 && |buf| - i > 1 then (Low(c, 32) * 64 + Low(buf[i + 1], 64), i + 2)
    else if 0xE0 <= c < 0xF0 && |buf| - i > 2 then (Low(c, 16) * 4096 + Low(buf[i + 1], 64) * 64 + Low(buf[i + 2], 64), i + 3)
    else (c, i + 1)
  }

  /** In a buffer, the same holds of a sequence that is cut off at the end. */
  lemma FallsBackAt(buf: seq<byte>, i: nat)
    requires i < |buf|
    ensures !Starts(buf[i]) || |buf| - i == 1 || (buf[i] / 16 == 14 && |buf| - i == 2) <==> DecodeAt(buf, i).1 == i + 1
    ensures DecodeAt(buf, i).1 == i + 1 ==> DecodeAt(buf, i).0 == buf[i]
  {
  }

  function DecodeFrom(buf: seq<byte>, i: nat): (codes: seq<nat>)
    requires i <= |buf|
    decreases |buf| - i
  {
    if i == |buf| then [] else [DecodeAt(buf, i).0] + DecodeFrom(buf, DecodeAt(buf, i).1)
  }

  method DecodeUtf8(buf: seq<byte>, index: nat, remaining: nat, utf8: bool) returns (code: nat, next: nat)
    requires index < |buf| && remaining == |buf| - index
    ensures (code, next) == if utf8 then DecodeAt(buf, index) else (buf[index], index + 1)
  {
    var c := buf[index];
    next := index + 1;
    if !utf8 {
      return c, next;
    }
    if c < 0x80 {
      return c, next;
    }
    if 0xC0 <= c < 0xE0 && remaining > 1 {
      code := Low(c, 32) * 64 + Low(buf[next], 64);
      next := next + 1;
      return;
    }
    if 0xE0 <= c < 0xF0 && remaining > 2 {
      code := Low(c, 16) * 4096 + Low(buf[next], 64) * 64;
      next := next + 1;
      code := code + Low(buf[next], 64);
      next := next + 1;
      return;
    }
    code := c;
  }

  lemma DecodeNext(buf: seq<byte>, n: nat)
    requires n < |buf|
    ensures var (code, next) := DecodeAt(buf, n);
            DecodeFrom(buf, n) == [code] + DecodeFrom(buf, next)
  {
  }

  lemma DecodeEnd(buf: seq<byte>)
    ensures DecodeFrom(buf, |buf|) == []
  {
  }

  /** The loop over a string: it ends, and it never reads past the end. With the decoder switched
      off every byte is a character. */
  method DecodeString(buf: seq<byte>, utf8: bool) returns (codes: seq<nat>)
    ensures utf8 ==> codes == DecodeFrom(buf, 0)
    ensures !utf8 ==> |codes| == |buf| && forall i :: 0 <= i < |buf| ==> codes[i] == buf[i]
  {
    hide DecodeAt, DecodeFrom;
    codes := [];
    var n := 0;
    assert [] + DecodeFrom(buf, 0) == DecodeFrom(buf, 0);
    while n < |buf|
      invariant 0 <= n <= |buf|
      invariant utf8 ==> DecodeFrom(buf, 0) == codes + DecodeFrom(buf, n)
      invariant !utf8 ==> |codes| == n && forall i :: 0 <= i < n ==> codes[i] == buf[i]
      decreases |buf| - n
    {
      var code, next := DecodeUtf8(buf, n, |buf| - n, utf8);
      DecodeNext(buf, n);
      assert codes + ([code] + DecodeFrom(buf, next)) == (codes + [code]) + DecodeFrom(buf, next);
      codes, n := codes + [code], next;
    }
    DecodeEnd(buf);
    assert codes + [] == codes;
  }

  lemma {:induction false} BufferRoundTripFrom(head: seq<byte>, text: seq<Code>)
    ensures DecodeFrom(head + EncodeText(text), |head|) == text
    decreases |text|
  {
    if text != [] {
      var e, rest := Encode(text[0]), EncodeText(text[1..]);
      var buf := head + EncodeText(text);
      assert buf == head + e + rest;
      DecodeEncoded(head, text[0], rest);
      BufferRoundTripFrom(head + e, text[1..]);
    } else {
      assert head + EncodeText(text) == head;
    }
  }

  lemma DecodeEncoded(head: seq<byte>, c: Code, rest: seq<byte>)
    ensures DecodeAt(head + Encode(c) + rest, |head|) == (c, |head| + |Encode(c)|)
  {
    hide Encode, Low;
    BitsOf(c);
    var e := Encode(c);
    var buf := head + e + rest;
    assert buf[|head|] == e[0];
    if |e| > 1 {
      assert buf[|head| + 1] == e[1];
    }
    if |e| > 2 {
      assert buf[|head| + 2] == e[2];
    }
  }

  /** Both decoders give an encoded text back: so they agree on it. */
  lemma DecodersAgree(s: State, text: seq<Code>)
    requires s.Valid() && s.missing == 0
    ensures DecodeFrom(EncodeText(text), 0) == FeedAll(s, EncodeText(text)).1 == text
  {
    SerialRoundTrip(s, text);
    BufferRoundTripFrom([], text);
    assert [] + EncodeText(text) == EncodeText(text);
  }
}
