/** Files that the parser accepts as valid and whose image is not the memory their program headers
    describe, because a segment has more file bytes than memory. Each file is one ELF header and two
    program headers; the segments take their bytes from the start of the file. */
module ImageExamples {
  import opened Bytes
  import opened ElfParser
  import opened ElfLayout
  import opened MemoryImage
  import opened ImageMeaning

  function Load(offset: uint64, vaddr: uint64, filesz: uint64, memsz: uint64): ProgramHeader {
    ProgramHeader(PT_LOAD, 0, offset, vaddr, 0, filesz, memsz, 0)
  }

  lemma TwoRequired(a: ProgramHeader, b: ProgramHeader)
    requires a.IsLoadable() && b.IsLoadable()
    ensures Required([a, b], 0) == [a, b]
  {
    assert [a, b][..1] == [a] && [a][..0] == [];
    assert Required([], 0) == [];
    assert Required([a], 0) == [a];
  }

  lemma TwoLayout(a: ProgramHeader, b: ProgramHeader, order: seq<ProgramHeader>)
    requires IsLayout(order, [a, b], 0) && a.IsLoadable() && b.IsLoadable() && a.vaddr < b.vaddr
    ensures order == [a, b]
  {
    TwoRequired(a, b);
    hide Required, IsRequired;
    SameLength(order, [a, b]);
    assert order[0] in multiset(order) && order[1] in multiset(order);
    assert order == [order[0], order[1]];
  }

  lemma TwoImage(elf: ElfFile, a: ProgramHeader, b: ProgramHeader, m: Image)
    requires IsBuilt(elf, 0, m) && elf.programHeaders == [a, b] && a.IsLoadable() && b.IsLoadable() && a.vaddr < b.vaddr
    requires SegmentsOk([a, b], |elf.rawData|) && RequiredNoWrap([a, b], 0)
    ensures SpanIs([a, b], m.lowestAddr, m.highestAddr)
    ensures Shows([a, b], elf.rawData, m.lowestAddr, m.highestAddr, m.bytes)
  {
    var order :| IsImage(elf, 0, order, m);
    TwoLayout(a, b, order);
    ImageBytes(elf, 0, order, m);
    GivenFacts(elf, 0, order, m);
    hide IsLayout, Overlay, Sum, SegmentsOf, CopiesDefined, Shows;
  }

  lemma TwoShown(a: ProgramHeader, b: ProgramHeader, high: nat, addr: int)
    ensures ShownSource([a, b], high, addr) ==
            if Fits(b, high) && Reaches(b, addr) then Source(b, addr)
            else if Fits(a, high) && Reaches(a, addr) then Source(a, addr) else -1
  {
    assert [a, b][0] == a && [a, b][1] == b;
  }

  lemma TwoSpan(a: ProgramHeader, b: ProgramHeader, low: nat, high: nat)
    requires SpanIs([a, b], low, high) && a.vaddr == 0 && 0 < b.vaddr && a.memsz == b.memsz == 1
    ensures low == 0 && high == b.vaddr + 1
  {
    assert a in [a, b] && b in [a, b];
  }

  /** Two checked segments of one byte of memory each, the first at address zero. */
  ghost predicate Pair(a: ProgramHeader, b: ProgramHeader, dataSize: nat) {
    && a.IsLoadable() && b.IsLoadable() && a.vaddr == 0 && 0 < b.vaddr && a.memsz == b.memsz == 1
    && SegmentsOk([a, b], dataSize) && NoWrap(a) && NoWrap(b)
  }

  lemma IsPair(a: ProgramHeader, b: ProgramHeader, dataSize: nat)
    requires a.IsLoadable() && b.IsLoadable() && a.vaddr == 0 && a.memsz == b.memsz == 1
    requires 0 < b.vaddr < 10 && a.filesz < 10 && b.filesz < 10
    requires InFile(a, dataSize) && InFile(b, dataSize)
    ensures Pair(a, b, dataSize)
  {
  }

  lemma TwoBytes(elf: ElfFile, a: ProgramHeader, b: ProgramHeader, m: Image)
    requires IsBuilt(elf, 0, m) && elf.programHeaders == [a, b] && Pair(a, b, |elf.rawData|)
    ensures m.lowestAddr == 0 && m.highestAddr == b.vaddr + 1
    ensures Shows([a, b], elf.rawData, 0, b.vaddr + 1, m.bytes)
  {
    assert RequiredNoWrap([a, b], 0);
    hide IsBuilt, SegmentsOk, RequiredNoWrap, Shows, SpanIs, NoWrap;
    TwoImage(elf, a, b, m);
    TwoSpan(a, b, m.lowestAddr, m.highestAddr);
  }

  lemma ShownByte(order: seq<ProgramHeader>, raw: Buffer, high: nat, bytes: Buffer, addr: nat)
    requires Shows(order, raw, 0, high, bytes) && addr < high
    ensures |bytes| == high && bytes[addr] == SourceByte(raw, ShownSource(order, high, addr))
  {
    hide SourceByte, ShownSource;
    assert bytes[addr - 0] == SourceByte(raw, ShownSource(order, high, addr));
  }

  lemma WrongByte(phs: seq<ProgramHeader>, raw: Buffer, low: nat, high: nat, bytes: Buffer, ph: ProgramHeader, addr: int)
    requires ph in phs && ph.IsLoadable() && CoversAddr(ph, addr) && low <= addr < low + |bytes|
    requires bytes[addr - low] != LoadedByte(ph, raw, addr)
    ensures !IsMemory(phs, raw, 0, low, high, bytes)
  {
    assert IsRequired(ph, 0);
  }

  lemma WrongGap(phs: seq<ProgramHeader>, raw: Buffer, low: nat, high: nat, bytes: Buffer, addr: int)
    requires low <= addr < low + |bytes| && bytes[addr - low] != 0
    requires forall i :: 0 <= i < |phs| ==> !CoversAddr(phs[i], addr)
    ensures !IsMemory(phs, raw, 0, low, high, bytes)
  {
    hide IsRequired;
    assert Uncovered(phs, 0, addr);
  }

  lemma PairChecked(a: ProgramHeader, b: ProgramHeader, dataSize: nat)
    requires Pair(a, b, dataSize)
    ensures SegmentsOk([a, b], dataSize) && a.IsLoadable() && b.IsLoadable()
  {
  }

  lemma Magic(data: Buffer)
    requires HasValidMagic(data)
    ensures |data| >= 4 && data[..4] == [0x7F, 0x45, 0x4C, 0x46]
  {
  }

  lemma Image2(elf: ElfFile, a: ProgramHeader, b: ProgramHeader, m: Image, x0: byte, x1: byte)
    requires IsBuilt(elf, 0, m) && elf.programHeaders == [a, b] && Pair(a, b, |elf.rawData|) && b.vaddr == 1
    requires SourceByte(elf.rawData, ShownSource([a, b], 2, 0)) == x0
    requires SourceByte(elf.rawData, ShownSource([a, b], 2, 1)) == x1
    ensures m.lowestAddr == 0 && m.highestAddr == 2 && m.bytes == [x0, x1]
  {
    hide *;
    TwoBytes(elf, a, b, m);
    ShownByte([a, b], elf.rawData, 2, m.bytes, 0);
    ShownByte([a, b], elf.rawData, 2, m.bytes, 1);
  }

  lemma Image3(elf: ElfFile, a: ProgramHeader, b: ProgramHeader, m: Image, x0: byte, x1: byte, x2: byte)
    requires IsBuilt(elf, 0, m) && elf.programHeaders == [a, b] && Pair(a, b, |elf.rawData|) && b.vaddr == 2
    requires SourceByte(elf.rawData, ShownSource([a, b], 3, 0)) == x0
    requires SourceByte(elf.rawData, ShownSource([a, b], 3, 1)) == x1
    requires SourceByte(elf.rawData, ShownSource([a, b], 3, 2)) == x2
    ensures m.lowestAddr == 0 && m.highestAddr == 3 && m.bytes == [x0, x1, x2]
  {
    hide *;
    TwoBytes(elf, a, b, m);
    ShownByte([a, b], elf.rawData, 3, m.bytes, 0);
    ShownByte([a, b], elf.rawData, 3, m.bytes, 1);
    ShownByte([a, b], elf.rawData, 3, m.bytes, 2);
  }

  lemma TopSegmentLostShown(raw: Buffer)
    requires |raw| == 176 && raw[..4] == [0x7F, 0x45, 0x4C, 0x46]
    ensures var a, b := Load(0, 0, 1, 1), Load(0, 1, 2, 1);
            && Pair(a, b, 176) && b.vaddr == 1
            && SourceByte(raw, ShownSource([a, b], 2, 0)) == 0x7F
            && SourceByte(raw, ShownSource([a, b], 2, 1)) == 0
            && CoversAddr(b, 1) && LoadedByte(b, raw, 1) == 0x7F
  {
    var a, b := Load(0, 0, 1, 1), Load(0, 1, 2, 1);
    assert raw[0] == raw[..4][0] && raw[1] == raw[..4][1] && raw[2] == raw[..4][2] && raw[3] == raw[..4][3];
    hide ShownSource, Pair;
    IsPair(a, b, 176);
    TwoShown(a, b, 2, 0);
    TwoShown(a, b, 2, 1);
  }

  /** The second of two segments, two file bytes for one byte of memory, is lost. */
  lemma TopSegmentLost() returns (data: Buffer)
    ensures HasValidMagic(data) && HeaderOk(ReadHeader(data), |data|)
    ensures forall elf, m :: ParsedFrom(data, elf) && IsBuilt(elf, 0, m) ==>
              && elf.IsValid() && elf.programHeaders == [Load(0, 0, 1, 1), Load(0, 1, 2, 1)] && m.bytes == [0x7F, 0]
              && !IsMemory(elf.programHeaders, data, 0, m.lowestAddr, m.highestAddr, m.bytes)
  {
    hide *;
    var a, b := Load(0, 0, 1, 1), Load(0, 1, 2, 1);
    data := TwoSegmentFile(a, b, 1);
    Magic(data);
    TopSegmentLostShown(data);
    PairChecked(a, b, 176);
    forall elf, m | ParsedFrom(data, elf) && IsBuilt(elf, 0, m)
      ensures elf.IsValid() && elf.programHeaders == [a, b] && m.bytes == [0x7F, 0]
      ensures !IsMemory(elf.programHeaders, data, 0, m.lowestAddr, m.highestAddr, m.bytes)
    {
      Image2(elf, a, b, m, 0x7F, 0);
      WrongByte([a, b], data, 0, 2, m.bytes, b, 1);
    }
  }

  lemma LowerSegmentLostShown(raw: Buffer)
    requires |raw| == 176 && raw[..4] == [0x7F, 0x45, 0x4C, 0x46]
    ensures var a, b := Load(0, 0, 3, 1), Load(3, 1, 1, 1);
            && Pair(a, b, 176) && b.vaddr == 1
            && SourceByte(raw, ShownSource([a, b], 2, 0)) == 0
            && SourceByte(raw, ShownSource([a, b], 2, 1)) == 0x46
            && CoversAddr(a, 0) && LoadedByte(a, raw, 0) == 0x7F
  {
    var a, b := Load(0, 0, 3, 1), Load(3, 1, 1, 1);
    assert raw[0] == raw[..4][0] && raw[1] == raw[..4][1] && raw[2] == raw[..4][2] && raw[3] == raw[..4][3];
    hide ShownSource, Pair;
    IsPair(a, b, 176);
    TwoShown(a, b, 2, 0);
    TwoShown(a, b, 2, 1);
  }

  /** The first of two segments, three file bytes for one byte of memory, is lost. */
  lemma LowerSegmentLost() returns (data: Buffer)
    ensures HasValidMagic(data) && HeaderOk(ReadHeader(data), |data|)
    ensures forall elf, m :: ParsedFrom(data, elf) && IsBuilt(elf, 0, m) ==>
              && elf.IsValid() && elf.programHeaders == [Load(0, 0, 3, 1), Load(3, 1, 1, 1)] && m.bytes == [0, 0x46]
              && !IsMemory(elf.programHeaders, data, 0, m.lowestAddr, m.highestAddr, m.bytes)
  {
    hide *;
    var a, b := Load(0, 0, 3, 1), Load(3, 1, 1, 1);
    data := TwoSegmentFile(a, b, 1);
    Magic(data);
    LowerSegmentLostShown(data);
    PairChecked(a, b, 176);
    forall elf, m | ParsedFrom(data, elf) && IsBuilt(elf, 0, m)
      ensures elf.IsValid() && elf.programHeaders == [a, b] && m.bytes == [0, 0x46]
      ensures !IsMemory(elf.programHeaders, data, 0, m.lowestAddr, m.highestAddr, m.bytes)
    {
      Image2(elf, a, b, m, 0, 0x46);
      WrongByte([a, b], data, 0, 2, m.bytes, a, 0);
    }
  }

  lemma GapNotZeroShown(raw: Buffer)
    requires |raw| == 176 && raw[..4] == [0x7F, 0x45, 0x4C, 0x46]
    ensures var a, b := Load(0, 0, 2, 1), Load(0, 2, 1, 1);
            && Pair(a, b, 176) && b.vaddr == 2
            && SourceByte(raw, ShownSource([a, b], 3, 0)) == 0x7F
            && SourceByte(raw, ShownSource([a, b], 3, 1)) == 0x45
            && SourceByte(raw, ShownSource([a, b], 3, 2)) == 0x7F
            && !CoversAddr(a, 1) && !CoversAddr(b, 1)
  {
    var a, b := Load(0, 0, 2, 1), Load(0, 2, 1, 1);
    assert raw[0] == raw[..4][0] && raw[1] == raw[..4][1] && raw[2] == raw[..4][2] && raw[3] == raw[..4][3];
    hide ShownSource, Pair;
    IsPair(a, b, 176);
    TwoShown(a, b, 3, 0);
    TwoShown(a, b, 3, 1);
    TwoShown(a, b, 3, 2);
  }

  /** The first of two segments, two file bytes for one byte of memory, spills into the gap. */
  lemma GapNotZero() returns (data: Buffer)
    ensures HasValidMagic(data) && HeaderOk(ReadHeader(data), |data|)
    ensures forall elf, m :: ParsedFrom(data, elf) && IsBuilt(elf, 0, m) ==>
              && elf.IsValid() && elf.programHeaders == [Load(0, 0, 2, 1), Load(0, 2, 1, 1)] && m.bytes == [0x7F, 0x45, 0x7F]
              && !IsMemory(elf.programHeaders, data, 0, m.lowestAddr, m.highestAddr, m.bytes)
  {
    hide *;
    var a, b := Load(0, 0, 2, 1), Load(0, 2, 1, 1);
    data := TwoSegmentFile(a, b, 1);
    Magic(data);
    GapNotZeroShown(data);
    PairChecked(a, b, 176);
    forall elf, m | ParsedFrom(data, elf) && IsBuilt(elf, 0, m)
      ensures elf.IsValid() && elf.programHeaders == [a, b] && m.bytes == [0x7F, 0x45, 0x7F]
      ensures !IsMemory(elf.programHeaders, data, 0, m.lowestAddr, m.highestAddr, m.bytes)
    {
      Image3(elf, a, b, m, 0x7F, 0x45, 0x7F);
      WrongGap([a, b], data, 0, 3, m.bytes, 1);
    }
  }
}
