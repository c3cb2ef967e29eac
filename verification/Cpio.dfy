/**
 The CPIO "new ASCII" archive that a DFU image is made of: how the writer prints an
 entry, and how a reader of the format takes an archive apart again.
 */
module Cpio {
  import opened Bytes

  /** One file of an archive. */
  datatype File = File(name: seq<byte>, data: seq<byte>)

  /** ASCII text as bytes. */
  function Ascii(s: string): (bs: seq<byte>)
    ensures |bs| == |s|
  {
    seq(|s|, i requires 0 <= i < |s| => (s[i] as int) % 256)
  }

  function HexDigit(v: nat): (d: byte)
    requires v < 16
  {
    if v < 10 then 48 + v else 87 + v
  }

  lemma HexDigitIs(v: nat)
    requires v < 16
    ensures HexDigit(v) == Ascii("0123456789abcdef")[v]
  {
  }

  function HexValue(d: byte): (v: Option<nat>)
    ensures v.Some? ==> v.value < 16 && HexDigit(v.value) == d
  {
    if 48 <= d < 58 then Some(d - 48) else if 97 <= d < 103 then Some(d - 87) else None
  }

  /** `v` in hexadecimal, with leading zeros up to `width` digits. */
  function FormatHex(v: nat, width: nat): (s: seq<byte>)
    ensures |s| >= width
    decreases v, width
  {
    (if v < 16 && width <= 1 then [] else FormatHex(v / 16, if width > 0 then width - 1 else 0)) + [HexDigit(v % 16)]
  }

  function ParseHex(s: seq<byte>): (r: Option<nat>)
  {
    if s == [] then Some(0)
    else
      var n := |s| - 1;
      match (ParseHex(s[..n]), HexValue(s[n]))
      case (Some(hi), Some(lo)) => Some(16 * hi + lo)
      case _ => None
  }

  function Pow16(n: nat): (p: nat)
    ensures p > 0
  {
    if n == 0 then 1 else 16 * Pow16(n - 1)
  }

  lemma {:induction false} HexRoundTrip(v: nat, width: nat)
    ensures ParseHex(FormatHex(v, width)) == Some(v)
    ensures width > 0 && v < Pow16(width) ==> |FormatHex(v, width)| == width
    decreases v, width
  {
    var s := FormatHex(v, width);
    var init := s[..|s| - 1];
    if v < 16 && width <= 1 {
      assert init == [];
    } else {
      var w := if width > 0 then width - 1 else 0;
      assert init == FormatHex(v / 16, w);
      HexRoundTrip(v / 16, w);
    }
  }

  lemma {:induction false} ParseHexBound(s: seq<byte>)
    ensures ParseHex(s).Some? ==> ParseHex(s).value < Pow16(|s|)
  {
    if s != [] {
      ParseHexBound(s[..|s| - 1]);
    }
  }

  /** A header field: the number in hexadecimal, cut to eight characters. */
  function Field(v: nat): (s: seq<byte>)
    ensures |s| == 8
  {
    FormatHex(v, 8)[..8]
  }

  lemma Pow16Of8()
    ensures Pow16(8) == 0x1_0000_0000
  {
    assert Pow16(4) == 0x1_0000;
  }

  /** A field gives its number back exactly when the number has at most 32 bits. */
  lemma FieldRoundTrip(v: nat)
    ensures ParseHex(Field(v)) == Some(v) <==> v < 0x1_0000_0000
  {
    Pow16Of8();
    HexRoundTrip(v, 8);
    ParseHexBound(Field(v));
    if v < 0x1_0000_0000 {
      assert FormatHex(v, 8)[..8] == FormatHex(v, 8);
    }
  }

  const MODE_FILE: nat := 0x81a4

  /** The numbers of a header, in the order of the format. */
  function HeaderFields(nameLen: nat, fileLen: nat, trailer: bool): (fs: seq<nat>)
  {
    [0, if trailer then 0 else MODE_FILE, 0, 0, if trailer then 1 else 0, 0, fileLen, 0, 0, 0, 0, nameLen, 0]
  }

  function PackFields(fs: seq<nat>): (s: seq<byte>)
    ensures |s| == 8 * |fs|
  {
    if fs == [] then [] else Field(fs[0]) + PackFields(fs[1..])
  }

  lemma {:induction false} PackFieldsAt(fs: seq<nat>, i: nat)
    requires i < |fs|
    ensures PackFields(fs)[8 * i..8 * i + 8] == Field(fs[i])
  {
    if i == 0 {
      assert PackFields(fs)[..8] == Field(fs[0]);
    } else {
      PackFieldsAt(fs[1..], i - 1);
      assert PackFields(fs)[8..] == PackFields(fs[1..]);
      assert PackFields(fs)[8 * i..8 * i + 8] == PackFields(fs)[8..][8 * (i - 1)..8 * (i - 1) + 8];
    }
  }

  function RoundUp(n: nat, m: nat): (r: nat)
    requires m > 0
    ensures r % m == 0 && n <= r < n + m
  {
    MultipleOf((n + m - 1) / m, m);
    (n + m - 1) / m * m
  }

  lemma MultipleOf(q: nat, m: nat)
    requires m > 0
    ensures q * m % m == 0
  {
    var k, t := q * m / m, q * m % m;
    var d: int := q - k;
    assert d * m == t;
    assert d >= 1 ==> d * m >= m;
  }

  function Zeros(n: nat): (s: seq<byte>)
    ensures |s| == n
  {
    seq(n, i => 0)
  }

  function PadBytes(b: seq<byte>, m: nat): (r: seq<byte>)
    requires m > 0
    ensures b <= r && |r| == RoundUp(|b|, m)
  {
    b + Zeros(RoundUp(|b|, m) - |b|)
  }

  lemma PaddingIsZero(b: seq<byte>, m: nat)
    requires m > 0
    ensures forall i :: |b| <= i < |PadBytes(b, m)| ==> PadBytes(b, m)[i] == 0
  {
  }

  const HEADER_SIZE: nat := 110

  function Magic(): (s: seq<byte>) {
    Ascii("070701")
  }

  function TrailerName(): (s: seq<byte>) {
    Ascii("TRAILER!!!")
  }

  function Header(nameLen: nat, fileLen: nat, trailer: bool): (s: seq<byte>)
    ensures |s| == HEADER_SIZE
  {
    Magic() + PackFields(HeaderFields(nameLen, fileLen, trailer))
  }

  function EntryBytes(f: File, trailer: bool): (s: seq<byte>)
    ensures |s| == RoundUp(HEADER_SIZE + |f.name| + 1, 4) + RoundUp(|f.data|, 4)
  {
    PadBytes(Header(|f.name| + 1, |f.data|, trailer) + (f.name + [0]), 4) + PadBytes(f.data, 4)
  }

  /** The sizes that a header can hold. */
  ghost predicate Fits(f: File) {
    |f.name| + 1 < 0x1_0000_0000 && |f.data| < 0x1_0000_0000
  }

  /** The first file of an archive, and how many bytes it takes up. */
  function ParseEntry(s: seq<byte>): (r: Option<(File, nat)>)
    ensures r.Some? ==> 0 < r.value.1 <= |s|
  {
    if |s| < HEADER_SIZE || s[..6] != Magic() then None
    else
      match (ParseHex(s[94..102]), ParseHex(s[54..62]))
      case (Some(nameLen), Some(fileLen)) =>
        var at := RoundUp(HEADER_SIZE + nameLen, 4);
        var size := at + RoundUp(fileLen, 4);
        if nameLen == 0 || |s| < size || s[HEADER_SIZE + nameLen - 1] != 0 then None
        else Some((File(s[HEADER_SIZE..HEADER_SIZE + nameLen - 1], s[at..at + fileLen]), size))
      case _ => None
  }

  /** The files of an archive up to its trailer. */
  function ParseArchive(s: seq<byte>): (r: Option<seq<File>>)
    decreases |s|
  {
    match ParseEntry(s)
    case None => None
    case Some((f, n)) =>
      if f.name == TrailerName() then Some([])
      else
        match ParseArchive(s[n..])
        case None => None
        case Some(fs) => Some([f] + fs)
  }

  lemma HeaderAt(nameLen: nat, fileLen: nat, trailer: bool)
    ensures var h := Header(nameLen, fileLen, trailer);
            h[..6] == Magic() && h[54..62] == Field(fileLen) && h[94..102] == Field(nameLen)
    ensures forall i :: 0 <= i < 13 ==>
              FieldAt(Header(nameLen, fileLen, trailer), i) == Field(FieldNumber(i, nameLen, fileLen, trailer))
  {
    hide Field, PackFields;
    var fs := HeaderFields(nameLen, fileLen, trailer);
    PackFieldsAt(fs, 6);
    PackFieldsAt(fs, 11);
    var h, p := Header(nameLen, fileLen, trailer), PackFields(fs);
    assert |Magic()| == 6;
    assert h[54..62] == p[48..56];
    assert h[94..102] == p[88..96];
    forall i | 0 <= i < 13 ensures FieldAt(h, i) == Field(FieldNumber(i, nameLen, fileLen, trailer)) {
      PackFieldsAt(fs, i);
      assert h[6 + 8 * i..14 + 8 * i] == p[8 * i..8 * i + 8];
    }
  }

  /** What field `i` of a header says, by its name in the format: 1 is the mode, a plain file that
      its owner may write; 4 the number of links; 6 the file size; 11 the name size. */
  function FieldNumber(i: nat, nameLen: nat, fileLen: nat, trailer: bool): (v: nat) {
    match i
    case 1 => if trailer then 0 else 8 * 0x1000 + 6 * 0x40 + 4 * 8 + 4
    case 4 => if trailer then 1 else 0
    case 6 => fileLen
    case 11 => nameLen
    case _ => 0
  }

  ghost function FieldAt(h: seq<byte>, i: nat): (f: seq<byte>)
    requires |h| == HEADER_SIZE && i < 13
  {
    h[6 + 8 * i..14 + 8 * i]
  }

  /** The fixed texts, byte by byte. */
  lemma Spelling()
    ensures Magic() == [0x30, 0x37, 0x30, 0x37, 0x30, 0x31]
    ensures TrailerName() == [0x54, 0x52, 0x41, 0x49, 0x4C, 0x45, 0x52, 0x21, 0x21, 0x21]
  {
  }

  /** A printed entry is read back, whatever follows it. */
  lemma EntryRoundTrip(f: File, trailer: bool, tail: seq<byte>)
    requires Fits(f)
    ensures ParseEntry(EntryBytes(f, trailer) + tail) == Some((f, |EntryBytes(f, trailer)|))
  {
    hide Field, Header, Magic, RoundUp, ParseHex, Zeros;
    var h := Header(|f.name| + 1, |f.data|, trailer);
    var named := PadBytes(h + (f.name + [0]), 4);
    var data := PadBytes(f.data, 4);
    var s := named + data + tail;
    HeaderAt(|f.name| + 1, |f.data|, trailer);
    assert s[..HEADER_SIZE] == named[..HEADER_SIZE] == h;
    assert s[..6] == h[..6];
    assert s[54..62] == h[54..62];
    assert s[94..102] == h[94..102];
    FieldRoundTrip(|f.name| + 1);
    FieldRoundTrip(|f.data|);
    NameAndData(h, f, tail);
  }

  lemma NameAndData(h: seq<byte>, f: File, tail: seq<byte>)
    requires |h| == HEADER_SIZE
    ensures var named := PadBytes(h + (f.name + [0]), 4);
            var s := named + PadBytes(f.data, 4) + tail;
            && s[HEADER_SIZE..HEADER_SIZE + |f.name|] == f.name
            && s[HEADER_SIZE + |f.name|] == 0
            && s[|named|..|named| + |f.data|] == f.data
  {
    hide RoundUp, Zeros;
  }

  ghost function ArchiveBytes(fs: seq<File>): (s: seq<byte>)
  {
    if fs == [] then [] else EntryBytes(fs[0], false) + ArchiveBytes(fs[1..])
  }

  ghost function UntilTrailer(fs: seq<File>): (r: seq<File>)
  {
    if fs == [] || fs[0].name == TrailerName() then [] else [fs[0]] + UntilTrailer(fs[1..])
  }

  /** Reading an archive gives its files in order, up to the first one that has the name
      of the trailer. */
  lemma {:induction false} ArchiveParses(fs: seq<File>, tail: seq<byte>)
    requires forall i :: 0 <= i < |fs| ==> Fits(fs[i])
    ensures ParseArchive(ArchiveBytes(fs) + (EntryBytes(File(TrailerName(), []), true) + tail)) == Some(UntilTrailer(fs))
  {
    hide EntryBytes, ParseEntry, TrailerName, Fits;
    var end := EntryBytes(File(TrailerName(), []), true) + tail;
    if fs == [] {
      TrailerFits();
      EntryRoundTrip(File(TrailerName(), []), true, tail);
      assert [] + end == end;
    } else {
      var rest := ArchiveBytes(fs[1..]) + end;
      EntryRoundTrip(fs[0], false, rest);
      assert ArchiveBytes(fs) + end == EntryBytes(fs[0], false) + rest;
      assert (EntryBytes(fs[0], false) + rest)[|EntryBytes(fs[0], false)|..] == rest;
      ArchiveParses(fs[1..], tail);
    }
  }

  lemma TrailerFits()
    ensures Fits(File(TrailerName(), []))
  {
  }

  /** So all files come back exactly when none has the trailer's name. */
  lemma {:induction false} UntilTrailerIsAll(fs: seq<File>)
    ensures UntilTrailer(fs) == fs <==> forall i :: 0 <= i < |fs| ==> fs[i].name != TrailerName()
  {
    if fs != [] {
      UntilTrailerIsAll(fs[1..]);
      if fs[0].name != TrailerName() {
        assert UntilTrailer(fs)[1..] == UntilTrailer(fs[1..]);
        assert forall i :: 0 < i < |fs| ==> fs[i] == fs[1..][i - 1];
      }
    }
  }
}
