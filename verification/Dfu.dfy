/**
 The DFU image writer: files are cut into chunks, every chunk becomes an entry of a CPIO
 archive, an index of all chunks goes in front, and a DFU suffix goes behind.
 */
module Dfu {
  import opened Bytes
  import opened Cpio

  type Digest = d: seq<byte> | |d| == 16 witness Zeros(16)
  type Word = w: nat | w < 0x1_0000_0000

  /** A piece of a file and the flash address it goes to. */
  datatype Chunk = Chunk(name: seq<byte>, addr: int, data: seq<byte>)

  /** An entry of the index. */
  datatype Info = Info(addr: int, name: seq<byte>, md5: Digest)

  function IndexName(): (s: seq<byte>) {
    Ascii("dfuinfo0.dat")
  }

  lemma IndexSpelling()
    ensures IndexName() == [0x64, 0x66, 0x75, 0x69, 0x6E, 0x66, 0x6F, 0x30, 0x2E, 0x64, 0x61, 0x74]
    ensures Ascii("UFD") == [0x55, 0x46, 0x44] && Ascii(".") == [0x2E]
  {
  }

  function Decimal(n: nat): (s: seq<byte>)
    ensures s != []
  {
    (if n < 10 then [] else Decimal(n / 10)) + [48 + n % 10]
  }

  function ParseDecimal(s: seq<byte>): (r: Option<nat>)
  {
    if s == [] then Some(0)
    else
      var n := |s| - 1;
      match ParseDecimal(s[..n])
      case Some(hi) => if 48 <= s[n] < 58 then Some(10 * hi + (s[n] - 48)) else None
      case None => None
  }

  lemma {:induction false} DecimalRoundTrip(n: nat)
    ensures ParseDecimal(Decimal(n)) == Some(n)
  {
    var s := Decimal(n);
    var init := s[..|s| - 1];
    if n < 10 {
      assert init == [];
    } else {
      assert init == Decimal(n / 10);
      DecimalRoundTrip(n / 10);
    }
  }

  /** The chunks of a file have different names. */
  lemma ChunkNamesDiffer(name: seq<byte>, i: nat, j: nat)
    ensures ChunkName(name, i) == ChunkName(name, j) <==> i == j
  {
    hide Decimal;
    var dot := name + Ascii(".");
    assert i > 0 ==> ChunkName(name, i)[|dot|..] == Decimal(i);
    assert j > 0 ==> ChunkName(name, j)[|dot|..] == Decimal(j);
    DecimalRoundTrip(i);
    DecimalRoundTrip(j);
  }

  /** The name of the `i`-th chunk of a file. */
  function ChunkName(name: seq<byte>, i: nat): (s: seq<byte>)
  {
    if i == 0 then name else name + Ascii(".") + Decimal(i)
  }

  ghost function Concat(cs: seq<Chunk>): (s: seq<byte>)
  {
    if cs == [] then [] else Concat(cs[..|cs| - 1]) + cs[|cs| - 1].data
  }

  /** The chunks are pieces of one file, in order, at consecutive addresses, none larger
      than a part and only the last one smaller. */
  ghost predicate CutsInto(name: seq<byte>, addr: int, content: seq<byte>, partSize: int, cs: seq<Chunk>)
  {
    && Concat(cs) == content
    && (forall i :: 0 <= i < |cs| ==> cs[i].name == ChunkName(name, i) && cs[i].data != [])
    && (forall i :: 0 <= i < |cs| ==> cs[i].addr == addr + |Concat(cs[..i])|)
    && (partSize > 0 ==> forall i :: 0 <= i < |cs| ==> |cs[i].data| <= partSize)
    && (partSize > 0 ==> forall i :: 0 <= i < |cs| - 1 ==> |cs[i].data| == partSize)
    && (partSize < 0 ==> |cs| <= 1)
  }

  lemma CutGrows(name: seq<byte>, addr: int, content: seq<byte>, partSize: int, cs: seq<Chunk>, data: seq<byte>)
    requires CutsInto(name, addr, content, partSize, cs) && data != []
    requires partSize > 0 ==> |data| <= partSize && (cs != [] ==> |cs[|cs| - 1].data| == partSize)
    requires partSize < 0 ==> cs == []
    ensures CutsInto(name, addr, content + data, partSize,
                     cs + [Chunk(ChunkName(name, |cs|), addr + |content|, data)])
  {
    hide ChunkName, Concat;
    var c := Chunk(ChunkName(name, |cs|), addr + |content|, data);
    var cs' := cs + [c];
    ConcatAppend(cs, c);
    assert cs'[..|cs|] == cs;
    forall i | 0 <= i < |cs'| ensures cs'[i].addr == addr + |Concat(cs'[..i])| {
      assert i < |cs| ==> cs'[..i] == cs[..i];
    }
  }

  lemma ConcatAppend(cs: seq<Chunk>, c: Chunk)
    ensures Concat(cs + [c]) == Concat(cs) + c.data
  {
    assert (cs + [c])[..|cs|] == cs;
  }

  function InfoOf(c: Chunk, md5: seq<byte> -> Digest): (e: Info) {
    Info(c.addr, c.name, md5(c.data))
  }

  /** A name in a 64-byte field: cut, or filled up with zeros. */
  function NameField(name: seq<byte>): (s: seq<byte>)
    ensures |s| == 64
  {
    if |name| <= 64 then name + Zeros(64 - |name|) else name[..64]
  }

  function PackInfo(e: Info): (r: Option<seq<byte>>)
    ensures r.Some? <==> 0 <= e.addr < 0x1_0000_0000
    ensures r.Some? ==> |r.value| == 88
  {
    if 0 <= e.addr < 0x1_0000_0000 then Some(Le32(e.addr) + Le32(0) + NameField(e.name) + e.md5) else None
  }

  function StripZeros(s: seq<byte>): (r: seq<byte>)
    ensures |r| <= |s|
  {
    if s != [] && s[|s| - 1] == 0 then StripZeros(s[..|s| - 1]) else s
  }

  lemma {:induction false} StripPadding(name: seq<byte>, n: nat)
    ensures StripZeros(name + Zeros(n)) == StripZeros(name)
  {
    if n == 0 {
      assert name + Zeros(0) == name;
    } else {
      assert (name + Zeros(n))[..|name| + n - 1] == name + Zeros(n - 1);
      StripPadding(name, n - 1);
    }
  }

  /** The index gives a name back exactly when it fits its field and does not end in a
      zero byte. */
  lemma NameFieldRoundTrip(name: seq<byte>)
    ensures StripZeros(NameField(name)) == name <==> |name| <= 64 && (name == [] || name[|name| - 1] != 0)
  {
    if |name| <= 64 {
      StripPadding(name, 64 - |name|);
    }
  }

  function PackIndex(es: seq<Info>): (r: Option<seq<byte>>)
    ensures r.Some? <==> forall i :: 0 <= i < |es| ==> 0 <= es[i].addr < 0x1_0000_0000
    ensures r.Some? ==> |r.value| == 88 * |es|
  {
    if es == [] then Some([])
    else
      var n := |es| - 1;
      match (PackIndex(es[..n]), PackInfo(es[n]))
      case (Some(init), Some(last)) => Some(init + last)
      case _ => None
  }

  /** What a reader of the index finds at entry `i`: address, flags, name field, checksum. */
  function InfoAt(s: seq<byte>, i: nat): (r: (nat, nat, seq<byte>, seq<byte>))
    requires 88 * i + 88 <= |s|
  {
    var e := s[88 * i..88 * i + 88];
    (FromLe32(e[..4]), FromLe32(e[4..8]), e[8..72], e[72..])
  }

  lemma {:induction false} IndexRoundTrip(es: seq<Info>, i: nat)
    requires PackIndex(es).Some? && i < |es|
    ensures InfoAt(PackIndex(es).value, i) == (es[i].addr, 0, NameField(es[i].name), es[i].md5)
  {
    hide NameField, Le32, FromLe32;
    var n := |es| - 1;
    var s, init, last := PackIndex(es).value, PackIndex(es[..n]).value, PackInfo(es[n]).value;
    if i < n {
      IndexRoundTrip(es[..n], i);
      assert s[88 * i..88 * i + 88] == init[88 * i..88 * i + 88];
    } else {
      assert s[88 * i..88 * i + 88] == last;
      assert last[..4] == Le32(es[n].addr);
      Le32Injective(es[n].addr);
      assert last[4..8] == Le32(0);
      Le32Injective(0);
      assert last[8..72] == NameField(es[n].name);
      assert last[72..] == es[n].md5;
    }
  }

  const ESPRESSIF_VID: nat := 12346

  /** The DFU suffix without its checksum. */
  function SuffixFields(pid: nat): (s: seq<byte>)
    requires pid < 0x1_0000
    ensures |s| == 12
  {
    Le16(0xFFFF) + Le16(pid) + Le16(ESPRESSIF_VID) + Le16(0x0100) + Ascii("UFD") + [16]
  }

  function DfuCrc(data: seq<byte>, crc32: seq<byte> -> Word): (c: Word) {
    0xFFFF_FFFF - crc32(data)
  }

  /** The image of a DFU file and its product and vendor numbers, if the suffix of
      Appendix B of USB DFU 1.1 is in place and its checksum is right. */
  function ReadDfu(s: seq<byte>, crc32: seq<byte> -> Word): (r: Option<(seq<byte>, nat, nat)>)
  {
    if |s| < 16 then None
    else
      var n := |s| - 16;
      if s[n + 8..n + 11] != Ascii("UFD") || s[n + 11] != 16 || FromLe32(s[n + 12..]) + crc32(s[..n + 12]) != 0xFFFF_FFFF then None
      else Some((s[..n], FromLe16(s[n + 2..n + 4]), FromLe16(s[n + 4..n + 6])))
  }

  lemma SuffixRoundTrip(image: seq<byte>, pid: nat, crc32: seq<byte> -> Word)
    requires pid < 0x1_0000
    ensures var body := image + SuffixFields(pid);
            ReadDfu(body + Le32(DfuCrc(body, crc32)), crc32) == Some((image, pid, 0x303A))
    ensures SuffixFields(pid)[..2] == [0xFF, 0xFF] && SuffixFields(pid)[6..8] == [0x00, 0x01]
  {
    assert Le16(0xFFFF) == [0xFF, 0xFF] && Le16(0x0100) == [0x00, 0x01];
    hide Le16, Le32, FromLe16, FromLe32;
    var n, x := |image|, SuffixFields(pid);
    var body := image + x;
    var s := body + Le32(DfuCrc(body, crc32));
    assert |Ascii("UFD")| == 3;
    assert x[2..4] == Le16(pid) && x[4..6] == Le16(ESPRESSIF_VID) && x[8..11] == Ascii("UFD") && x[11] == 16;
    assert s[..n + 12] == body && s[..n] == image && s[n + 12..] == Le32(DfuCrc(body, crc32));
    assert s[n + 2..n + 4] == x[2..4] && s[n + 4..n + 6] == x[4..6] && s[n + 8..n + 11] == x[8..11];
    Le32Injective(DfuCrc(body, crc32));
    Le16Injective(pid);
    Le16Injective(ESPRESSIF_VID);
  }

  ghost function Files(cs: seq<Chunk>): (fs: seq<File>)
    ensures |fs| == |cs|
  {
    seq(|cs|, i requires 0 <= i < |cs| => File(cs[i].name, cs[i].data))
  }

  ghost function Entries(fs: seq<File>): (es: seq<seq<byte>>)
    ensures |es| == |fs|
  {
    seq(|fs|, i requires 0 <= i < |fs| => EntryBytes(fs[i], false))
  }

  ghost function Infos(cs: seq<Chunk>, md5: seq<byte> -> Digest): (es: seq<Info>)
    ensures |es| == |cs|
  {
    seq(|cs|, i requires 0 <= i < |cs| => InfoOf(cs[i], md5))
  }

  function Join(es: seq<seq<byte>>): (s: seq<byte>)
  {
    if es == [] then [] else es[0] + Join(es[1..])
  }

  lemma {:induction false} JoinEntries(fs: seq<File>, last: seq<byte>)
    ensures Join(Entries(fs) + [last]) == ArchiveBytes(fs) + last
  {
    hide EntryBytes;
    if fs == [] {
      assert Entries(fs) + [last] == [last] && [last][1..] == [];
      assert Join([last]) == last + Join([]);
    } else {
      assert (Entries(fs) + [last])[1..] == Entries(fs[1..]) + [last];
      JoinEntries(fs[1..], last);
    }
  }

  /** A read of up to `n` bytes; a negative `n` reads all that is left. */
  function ReadPart(content: seq<byte>, pos: nat, n: int): (s: seq<byte>)
    requires pos <= |content|
    ensures pos + |s| <= |content| && s == content[pos..pos + |s|]
    ensures s == [] <==> pos == |content| || n == 0
  {
    if n < 0 || pos + n > |content| then content[pos..] else content[pos..pos + n]
  }

  /** What reading a file in parts of this size ever yields. */
  function Readable(content: seq<byte>, partSize: int): (s: seq<byte>) {
    if partSize == 0 then [] else content
  }

  class Writer {
    const pid: int
    const partSize: int
    const md5: seq<byte> -> Digest
    const crc32: seq<byte> -> Word
    var entries: seq<seq<byte>>
    var index: seq<Info>
    ghost var chunks: seq<Chunk>

    /** Archive entry `i` and index entry `i` are about the same chunk. */
    ghost predicate Valid()
      reads this
    {
      entries == Entries(Files(chunks)) && index == Infos(chunks, md5)
    }

    constructor (pid: int, partSize: int, md5: seq<byte> -> Digest, crc32: seq<byte> -> Word)
      ensures Valid() && chunks == []
      ensures this.pid == pid && this.partSize == partSize && this.md5 == md5 && this.crc32 == crc32
    {
      this.pid, this.partSize, this.md5, this.crc32 := pid, partSize, md5, crc32;
      entries, index, chunks := [], [], [];
    }

    method AddFlashEntry(name: seq<byte>, addr: int, data: seq<byte>)
      requires Valid()
      modifies this
      ensures Valid() && chunks == old(chunks) + [Chunk(name, addr, data)]
    {
      hide EntryBytes;
      index := index + [Info(addr, name, md5(data))];
      entries := entries + [EntryBytes(File(name, data), false)];
      chunks := chunks + [Chunk(name, addr, data)];
    }

    /** Cuts a file into chunks and adds them. */
    method AddFile(flashAddr: int, name: seq<byte>, content: seq<byte>) returns (ghost cs: seq<Chunk>)
      requires Valid()
      modifies this
      ensures Valid() && chunks == old(chunks) + cs
      ensures CutsInto(name, flashAddr, Readable(content, partSize), partSize, cs)
    {
      hide Valid, ChunkName, ReadPart, CutsInto;
      CutNothing(name, flashAddr, partSize);
      assert content[..0] == [];
      cs := [];
      var addr, pos, i := flashAddr, 0, 0;
      var chunk := ReadPart(content, pos, partSize);
      while chunk != []
        invariant Valid() && chunks == old(chunks) + cs
        invariant pos <= |content| && i == |cs| && addr == flashAddr + pos
        invariant chunk == ReadPart(content, pos, partSize)
        invariant CutsInto(name, flashAddr, content[..pos], partSize, cs)
        invariant partSize > 0 && cs != [] && pos < |content| ==> |cs[|cs| - 1].data| == partSize
        invariant partSize < 0 && cs != [] ==> pos == |content|
        invariant partSize == 0 ==> pos == 0
        decreases |content| - pos
      {
        PartSizes(content, pos, partSize);
        CutGrows(name, flashAddr, content[..pos], partSize, cs, chunk);
        assert content[..pos] + chunk == content[..pos + |chunk|];
        AddFlashEntry(ChunkName(name, i), addr, chunk);
        cs := cs + [Chunk(ChunkName(name, i), addr, chunk)];
        addr, pos, i := addr + |chunk|, pos + |chunk|, i + 1;
        chunk := ReadPart(content, pos, partSize);
      }
      assert content[..pos] == Readable(content, partSize);
    }

    /** Prints the image; a number that does not fit its field is an error. */
    method Finish() returns (r: Option<seq<byte>>, ghost image: seq<byte>, ghost idx: seq<byte>)
      requires Valid()
      modifies this
      ensures chunks == old(chunks)
      ensures r.Some? <==> 0 <= pid < 0x1_0000 && AddressesFit(chunks)
      ensures r.Some? ==> ReadDfu(r.value, crc32) == Some((image, pid, 0x303A)) && |image| % 10240 == 0
      ensures r.Some? ==> IsIndexOf(idx, chunks, md5)
      ensures r.Some? ==> image == PadBytes(ArchiveBytes([File(IndexName(), idx)] + Files(chunks))
                                            + EntryBytes(File(TrailerName(), []), true), 10240)
      ensures r.Some? && ChunksFit(chunks) ==>
                ParseArchive(image) == Some(UntilTrailer([File(IndexName(), idx)] + Files(chunks)))
    {
      hide EntryBytes, ArchiveBytes, ReadDfu, InfoAt, ParseArchive, UntilTrailer, IsIndexOf, PadBytes, Join, ChunksFit,
           SuffixFields, DfuCrc, IndexName, TrailerName, Files, Entries, Infos, PackIndex, AddressesFit, Le32;
      IndexPacks(chunks, md5);
      image, idx := [], [];
      var dfuinfo := PackIndex(index);
      if dfuinfo.None? {
        return None, image, idx;
      }
      idx := dfuinfo.value;
      entries := [EntryBytes(File(IndexName(), dfuinfo.value), false)] + entries;
      entries := entries + [EntryBytes(File(TrailerName(), []), true)];
      var outData := PadBytes(Join(entries), 10240);
      if !(0 <= pid < 0x1_0000) {
        return None, image, idx;
      }
      image := outData;
      var fields := SuffixFields(pid);
      SuffixRoundTrip(outData, pid, crc32);
      r := Some(outData + fields + Le32(DfuCrc(outData + fields, crc32)));
      IndexIsRead(idx, chunks, md5);
      FinishedParses(chunks, idx, entries);
    }
  }

  /** Index entry `i` tells where chunk `i` goes, its name and its checksum. */
  ghost predicate IsIndexOf(idx: seq<byte>, cs: seq<Chunk>, md5: seq<byte> -> Digest) {
    && |idx| == 88 * |cs|
    && forall i :: 0 <= i < |cs| ==> InfoAt(idx, i) == (cs[i].addr, 0, NameField(cs[i].name), md5(cs[i].data))
  }

  ghost predicate AddressesFit(cs: seq<Chunk>) {
    forall i :: 0 <= i < |cs| ==> 0 <= cs[i].addr < 0x1_0000_0000
  }

  lemma IndexPacks(cs: seq<Chunk>, md5: seq<byte> -> Digest)
    ensures PackIndex(Infos(cs, md5)).Some? <==> AddressesFit(cs)
  {
    var es := Infos(cs, md5);
    assert forall i :: 0 <= i < |cs| ==> es[i].addr == cs[i].addr;
  }

  lemma IndexIsRead(idx: seq<byte>, cs: seq<Chunk>, md5: seq<byte> -> Digest)
    requires PackIndex(Infos(cs, md5)) == Some(idx)
    ensures IsIndexOf(idx, cs, md5)
  {
    hide InfoAt, PackIndex;
    forall i | 0 <= i < |cs| ensures InfoAt(idx, i) == (cs[i].addr, 0, NameField(cs[i].name), md5(cs[i].data)) {
      IndexRoundTrip(Infos(cs, md5), i);
    }
  }

  /** Every size of the archive can be printed. */
  ghost predicate ChunksFit(cs: seq<Chunk>) {
    88 * |cs| < 0x1_0000_0000 && forall i :: 0 <= i < |cs| ==> Fits(Files(cs)[i])
  }

  lemma FinishedParses(cs: seq<Chunk>, idx: seq<byte>, entries: seq<seq<byte>>)
    requires |idx| == 88 * |cs|
    requires entries == [EntryBytes(File(IndexName(), idx), false)] + Entries(Files(cs)) + [EntryBytes(File(TrailerName(), []), true)]
    ensures Join(entries) == ArchiveBytes([File(IndexName(), idx)] + Files(cs)) + EntryBytes(File(TrailerName(), []), true)
    ensures ChunksFit(cs) ==>
              ParseArchive(PadBytes(Join(entries), 10240)) == Some(UntilTrailer([File(IndexName(), idx)] + Files(cs)))
  {
    hide EntryBytes, ArchiveBytes, ParseArchive, UntilTrailer, Join, Fits;
    var fs, end := [File(IndexName(), idx)] + Files(cs), EntryBytes(File(TrailerName(), []), true);
    assert entries == Entries(fs) + [end];
    JoinEntries(fs, end);
    var zeros := Zeros(RoundUp(|Join(entries)|, 10240) - |Join(entries)|);
    assert PadBytes(Join(entries), 10240) == ArchiveBytes(fs) + (end + zeros);
    if ChunksFit(cs) {
      IndexFits(cs, idx);
      ArchiveParses(fs, zeros);
    }
  }

  lemma IndexFits(cs: seq<Chunk>, idx: seq<byte>)
    requires |idx| == 88 * |cs| && ChunksFit(cs)
    ensures forall i :: 0 <= i <= |cs| ==> Fits(([File(IndexName(), idx)] + Files(cs))[i])
  {
  }

  lemma CutNothing(name: seq<byte>, addr: int, partSize: int)
    ensures CutsInto(name, addr, [], partSize, [])
  {
  }

  lemma PartSizes(content: seq<byte>, pos: nat, n: int)
    requires pos <= |content|
    ensures n > 0 ==> |ReadPart(content, pos, n)| <= n
    ensures n > 0 && pos + |ReadPart(content, pos, n)| < |content| ==> |ReadPart(content, pos, n)| == n
    ensures n < 0 ==> pos + |ReadPart(content, pos, n)| == |content|
  {
  }

  /** A file on the command line: where it goes, its base name, what it holds. */
  datatype Input = Input(addr: int, name: seq<byte>, content: seq<byte>)

  ghost function Flat(cuts: seq<seq<Chunk>>): (cs: seq<Chunk>)
  {
    if cuts == [] then [] else Flat(cuts[..|cuts| - 1]) + cuts[|cuts| - 1]
  }

  ghost predicate AllCut(files: seq<Input>, partSize: int, cuts: seq<seq<Chunk>>)
  {
    && |cuts| == |files|
    && forall i :: 0 <= i < |files| ==>
         CutsInto(files[i].name, files[i].addr, Readable(files[i].content, partSize), partSize, cuts[i])
  }

  /** No file that yields a chunk has the name of the archive's trailer. */
  ghost predicate NoneNamedTrailer(files: seq<Input>, partSize: int)
  {
    forall i :: 0 <= i < |files| && files[i].name == TrailerName() ==> Readable(files[i].content, partSize) == []
  }

  lemma LastOfDecimal(n: nat)
    ensures 48 <= Decimal(n)[|Decimal(n)| - 1] < 58
    ensures Decimal(n)[|Decimal(n)| - 1] == Ascii("0123456789")[n % 10]
  {
  }

  lemma ChunkNamedTrailer(name: seq<byte>, i: nat)
    ensures ChunkName(name, i) == TrailerName() <==> i == 0 && name == TrailerName()
  {
    if i > 0 {
      LastOfDecimal(i);
      var s := ChunkName(name, i);
      assert s[|s| - 1] == Decimal(i)[|Decimal(i)| - 1];
      assert TrailerName()[9] == 33;
    }
  }

  lemma CutNamedTrailer(f: Input, partSize: int, cs: seq<Chunk>)
    requires CutsInto(f.name, f.addr, Readable(f.content, partSize), partSize, cs)
    ensures (forall j :: 0 <= j < |cs| ==> cs[j].name != TrailerName()) <==>
            (f.name == TrailerName() ==> Readable(f.content, partSize) == [])
  {
    hide ChunkName, TrailerName;
    forall j | 0 <= j < |cs| ensures cs[j].name == TrailerName() <==> j == 0 && f.name == TrailerName() {
      ChunkNamedTrailer(f.name, j);
    }
    if cs != [] {
      assert |cs[|cs| - 1].data| > 0;
      assert Readable(f.content, partSize) != [];
      assert cs[0].name == TrailerName() <==> f.name == TrailerName();
    }
  }

  lemma {:induction false} FlatNamedTrailer(files: seq<Input>, partSize: int, cuts: seq<seq<Chunk>>)
    requires AllCut(files, partSize, cuts)
    ensures (forall j :: 0 <= j < |Flat(cuts)| ==> Flat(cuts)[j].name != TrailerName()) <==> NoneNamedTrailer(files, partSize)
  {
    hide CutsInto, TrailerName, Readable;
    if files != [] {
      var n := |files| - 1;
      FlatNamedTrailer(files[..n], partSize, cuts[..n]);
      CutNamedTrailer(files[n], partSize, cuts[n]);
      var init, last := Flat(cuts[..n]), cuts[n];
      assert Flat(cuts) == init + last;
      if j :| 0 <= j < |init| && init[j].name == TrailerName() {
        assert Flat(cuts)[j] == init[j];
      }
      if j :| 0 <= j < |last| && last[j].name == TrailerName() {
        assert Flat(cuts)[|init| + j] == last[j];
      }
    }
  }

  lemma AllParsed(cs: seq<Chunk>, idx: seq<byte>)
    ensures var fs := [File(IndexName(), idx)] + Files(cs);
            UntilTrailer(fs) == fs <==> forall j :: 0 <= j < |cs| ==> cs[j].name != TrailerName()
  {
    hide UntilTrailer;
    var fs := [File(IndexName(), idx)] + Files(cs);
    UntilTrailerIsAll(fs);
    assert |IndexName()| != |TrailerName()|;
    assert forall j :: 0 <= j < |cs| ==> fs[j + 1].name == cs[j].name;
  }

  /** The whole tool: the image can be taken apart again into the index and, in order, all
      chunks of all files, exactly when no file is named like the trailer. */
  method WriteImage(files: seq<Input>, pid: int, partSize: int, md5: seq<byte> -> Digest, crc32: seq<byte> -> Word)
    returns (r: Option<seq<byte>>, ghost cuts: seq<seq<Chunk>>, ghost image: seq<byte>, ghost idx: seq<byte>)
    ensures AllCut(files, partSize, cuts)
    ensures r.Some? <==> 0 <= pid < 0x1_0000 && AddressesFit(Flat(cuts))
    ensures r.Some? ==> ReadDfu(r.value, crc32) == Some((image, pid, 0x303A)) && |image| % 10240 == 0
    ensures r.Some? ==> IsIndexOf(idx, Flat(cuts), md5)
    ensures r.Some? && ChunksFit(Flat(cuts)) ==>
              (ParseArchive(image) == Some([File(IndexName(), idx)] + Files(Flat(cuts))) <==> NoneNamedTrailer(files, partSize))
  {
    hide CutsInto, Readable, AddressesFit, ReadDfu, IsIndexOf, ChunksFit, ParseArchive, UntilTrailer, IndexName, Files, NoneNamedTrailer;
    var writer := new Writer(pid, partSize, md5, crc32);
    cuts := [];
    var i := 0;
    while i < |files|
      invariant 0 <= i <= |files| && writer.Valid() && writer.chunks == Flat(cuts)
      invariant AllCut(files[..i], partSize, cuts)
    {
      hide writer.Valid;
      ghost var cs := writer.AddFile(files[i].addr, files[i].name, files[i].content);
      assert (cuts + [cs])[..i] == cuts;
      assert files[..i + 1] == files[..i] + [files[i]];
      cuts := cuts + [cs];
      i := i + 1;
    }
    assert files[..i] == files;
    r, image, idx := writer.Finish();
    FlatNamedTrailer(files, partSize, cuts);
    AllParsed(Flat(cuts), idx);
  }
}
