/** ElfParser: decoding and bounds checks. Header readers are pure functions of the buffer;
    every index they use is proved to lie inside it. Sizes follow the ELF header, program
    header and section header layouts of the System V ABI. */
module ElfParser {
  import opened Bytes

  const ELF32: byte := 1
  const ELF64: byte := 2
  const PT_NULL := 0
  const PT_LOAD := 1
  const SHT_STRTAB := 3

  datatype ElfHeader = ElfHeader(
    elfClass: byte, endian: byte, version: byte, osAbi: byte, abiVersion: byte,
    type_: uint16, machine: uint16, elfVersion: uint32, entry: uint64, phoff: uint64, shoff: uint64,
    flags: uint32, ehsize: uint16, phentsize: uint16, phnum: uint16, shentsize: uint16, shnum: uint16,
    shstrndx: uint16)

  const NO_HEADER := ElfHeader(0, 0, 0, 0, 0, 0, 0, 0, 0, 0, 0, 0, 0, 0, 0, 0, 0, 0)

  datatype ProgramHeader = ProgramHeader(
    type_: uint32, flags: uint32, offset: uint64, vaddr: uint64, paddr: uint64,
    filesz: uint64, memsz: uint64, align: uint64)
  {
    predicate IsLoadable() {
      type_ == PT_LOAD
    }

    function EndVaddr(): uint64 {
      Add64(vaddr, memsz)
    }
  }

  datatype SectionHeader = SectionHeader(
    name: Buffer, nameIdx: uint32, type_: uint32, flags: uint64, addr: uint64, offset: uint64,
    size: uint64, link: uint32, info: uint32, addralign: uint64, entsize: uint64)

  datatype ElfFile = ElfFile(
    header: ElfHeader, programHeaders: seq<ProgramHeader>, sectionHeaders: seq<SectionHeader>,
    rawData: Buffer, valid: bool)
  {
    predicate IsValid() {
      valid && header.elfClass != 0 && header.elfVersion == 1
    }
  }

  datatype ParseResult = Parsed(elf: ElfFile) | InvalidElf

  // ----- endian-aware reads -----

  function ReadU16(data: Buffer, off: nat, endian: byte): uint16
    requires off + 2 <= |data|
  {
    ReadUintIsFileOrder(data[off..off + 2], endian);
    ReadUint(data[off..off + 2], endian)
  }

  function ReadU32(data: Buffer, off: nat, endian: byte): uint32
    requires off + 4 <= |data|
  {
    ReadUintIsFileOrder(data[off..off + 4], endian);
    assert Pow256(4) == 256 * 256 * Pow256(2);
    ReadUint(data[off..off + 4], endian)
  }

  function ReadU64(data: Buffer, off: nat, endian: byte): uint64
    requires off + 8 <= |data|
  {
    ReadUintIsFileOrder(data[off..off + 8], endian);
    assert Pow256(8) == TWO64 by {
      assert Pow256(8) == 256 * 256 * Pow256(6);
      assert Pow256(6) == 256 * 256 * Pow256(4);
      assert Pow256(4) == 256 * 256 * Pow256(2);
    }
    ReadUint(data[off..off + 8], endian)
  }

  // ----- header readers -----

  function HasValidMagic(data: Buffer): bool {
    |data| >= 4 && data[..4] == [0x7F, 0x45, 0x4C, 0x46]
  }

  function ReadHeader(data: Buffer): ElfHeader {
    if |data| < 52 then NO_HEADER
    else
      var hdr := NO_HEADER.(elfClass := data[4], endian := data[5]);
      if hdr.elfClass == 0 || hdr.endian == 0 then hdr
      else
        var e := hdr.endian;
        var ident := hdr.(version := data[6], osAbi := data[7], abiVersion := data[8]);
        if hdr.elfClass == ELF64 && |data| >= 64 then
          ident.(type_ := ReadU16(data, 16, e), machine := ReadU16(data, 18, e),
                 elfVersion := ReadU32(data, 20, e), entry := ReadU64(data, 24, e),
                 phoff := ReadU64(data, 32, e), shoff := ReadU64(data, 40, e),
                 flags := ReadU32(data, 48, e), ehsize := ReadU16(data, 52, e),
                 phentsize := ReadU16(data, 54, e), phnum := ReadU16(data, 56, e),
                 shentsize := ReadU16(data, 58, e), shnum := ReadU16(data, 60, e),
                 shstrndx := ReadU16(data, 62, e))
        else if hdr.elfClass == ELF32 then
          ident.(type_ := ReadU16(data, 16, e), machine := ReadU16(data, 18, e),
                 elfVersion := ReadU32(data, 20, e), entry := ReadU32(data, 24, e),
                 phoff := ReadU32(data, 28, e), shoff := ReadU32(data, 32, e),
                 flags := ReadU32(data, 36, e), ehsize := ReadU16(data, 40, e),
                 phentsize := ReadU16(data, 42, e), phnum := ReadU16(data, 44, e),
                 shentsize := ReadU16(data, 46, e), shnum := ReadU16(data, 48, e),
                 shstrndx := ReadU16(data, 50, e))
        else ident
  }

  function PhSize(elfClass: byte): nat {
    if elfClass == ELF64 then 56 else 32
  }

  function ShSize(elfClass: byte): nat {
    if elfClass == ELF64 then 64 else 40
  }

  function ReadProgramHeader32(p: Buffer, e: byte): ProgramHeader
    requires |p| == 32
  {
    ProgramHeader(type_ := ReadU32(p, 0, e), offset := ReadU32(p, 4, e), vaddr := ReadU32(p, 8, e),
                  paddr := ReadU32(p, 12, e), filesz := ReadU32(p, 16, e), memsz := ReadU32(p, 20, e),
                  flags := ReadU32(p, 24, e), align := ReadU32(p, 28, e))
  }

  function ReadProgramHeader64(p: Buffer, e: byte): ProgramHeader
    requires |p| == 56
  {
    ProgramHeader(type_ := ReadU32(p, 0, e), flags := ReadU32(p, 4, e), offset := ReadU64(p, 8, e),
                  vaddr := ReadU64(p, 16, e), paddr := ReadU64(p, 24, e), filesz := ReadU64(p, 32, e),
                  memsz := ReadU64(p, 40, e), align := ReadU64(p, 48, e))
  }

  function ReadSectionHeader32(p: Buffer, e: byte): SectionHeader
    requires |p| == 40
  {
    SectionHeader(name := [], nameIdx := ReadU32(p, 0, e), type_ := ReadU32(p, 4, e), flags := ReadU32(p, 8, e),
                  addr := ReadU32(p, 12, e), offset := ReadU32(p, 16, e), size := ReadU32(p, 20, e),
                  link := ReadU32(p, 24, e), info := ReadU32(p, 28, e), addralign := ReadU32(p, 32, e),
                  entsize := ReadU32(p, 36, e))
  }

  function ReadSectionHeader64(p: Buffer, e: byte): SectionHeader
    requires |p| == 64
  {
    SectionHeader(name := [], nameIdx := ReadU32(p, 0, e), type_ := ReadU32(p, 4, e), flags := ReadU64(p, 8, e),
                  addr := ReadU64(p, 16, e), offset := ReadU64(p, 24, e), size := ReadU64(p, 32, e),
                  link := ReadU32(p, 40, e), info := ReadU32(p, 44, e), addralign := ReadU64(p, 48, e),
                  entsize := ReadU64(p, 56, e))
  }

  const NO_PROGRAM_HEADER := ProgramHeader(0, 0, 0, 0, 0, 0, 0, 0)
  const NO_SECTION_HEADER := SectionHeader([], 0, 0, 0, 0, 0, 0, 0, 0, 0, 0)

  function DecodeProgramHeader(hdr: ElfHeader, p: Buffer): ProgramHeader {
    if |p| != PhSize(hdr.elfClass) then NO_PROGRAM_HEADER
    else if hdr.elfClass == ELF64 then ReadProgramHeader64(p, hdr.endian) else ReadProgramHeader32(p, hdr.endian)
  }

  function DecodeSectionHeader(hdr: ElfHeader, p: Buffer): SectionHeader {
    if |p| != ShSize(hdr.elfClass) then NO_SECTION_HEADER
    else if hdr.elfClass == ELF64 then ReadSectionHeader64(p, hdr.endian) else ReadSectionHeader32(p, hdr.endian)
  }

  // ----- validation -----

  /** The header errors, in 64-bit wrapping arithmetic; warnings do not affect the verdict. */
  predicate HeaderOk(hdr: ElfHeader, dataSize: nat) {
    && hdr.elfClass != 0
    && hdr.endian != 0
    && hdr.elfVersion == 1
    && hdr.machine != 0
    && (hdr.phnum > 0 ==> hdr.phentsize >= PhSize(hdr.elfClass))
    && (hdr.shnum > 0 ==> hdr.shentsize >= ShSize(hdr.elfClass))
    && !(0 < hdr.phoff < (if hdr.ehsize > 0 then hdr.ehsize else 52))
    && !(hdr.phoff > 0 && Add64(hdr.phoff, hdr.phnum * hdr.phentsize) > dataSize)
    && !(hdr.shoff > 0 && Add64(hdr.shoff, hdr.shnum * hdr.shentsize) > dataSize)
  }

  predicate InFile(ph: ProgramHeader, dataSize: nat) {
    ph.filesz <= dataSize && ph.offset <= dataSize - ph.filesz
  }

  predicate Overlap(a: ProgramHeader, b: ProgramHeader) {
    a.vaddr < b.EndVaddr() && b.vaddr < a.EndVaddr()
  }

  ghost predicate NoOverlaps(phs: seq<ProgramHeader>) {
    forall i, j :: 0 <= i < j < |phs| && phs[i].IsLoadable() && phs[j].IsLoadable() ==> !Overlap(phs[i], phs[j])
  }

  ghost predicate SegmentsOk(phs: seq<ProgramHeader>, dataSize: nat) {
    && (forall i :: 0 <= i < |phs| && phs[i].type_ != PT_NULL ==> InFile(phs[i], dataSize))
    && NoOverlaps(phs)
  }

  method ValidateProgramHeaders(phs: seq<ProgramHeader>, dataSize: nat) returns (valid: bool)
    ensures valid <==> SegmentsOk(phs, dataSize)
  {
    valid := true;
    for i := 0 to |phs|
      invariant valid <==> forall k :: 0 <= k < i && phs[k].type_ != PT_NULL ==> InFile(phs[k], dataSize)
    {
      if phs[i].type_ != PT_NULL && !InFile(phs[i], dataSize) {
        valid := false;
      }
    }
    var clear := CheckOverlappingSegments(phs);
    valid := valid && clear;
  }

  /** The same pairwise test is made by the parser and by ElfValidator. */
  method CheckOverlappingSegments(phs: seq<ProgramHeader>) returns (clear: bool)
    ensures clear <==> NoOverlaps(phs)
  {
    for i := 0 to |phs|
      invariant forall a, b :: 0 <= a < i && a < b < |phs| && phs[a].IsLoadable() && phs[b].IsLoadable() ==>
                  !Overlap(phs[a], phs[b])
    {
      if phs[i].IsLoadable() {
        for j := i + 1 to |phs|
          invariant forall b :: i < b < j && phs[b].IsLoadable() ==> !Overlap(phs[i], phs[b])
        {
          if phs[j].IsLoadable() && Overlap(phs[i], phs[j]) {
            return false;
          }
        }
      }
    }
    clear := true;
  }

  // ----- tables -----

  /** A header table is read when it is non-empty and starts strictly inside the file. */
  predicate TablePresent(num: uint16, off: uint64, dataSize: nat) {
    num > 0 && 0 < off < dataSize
  }

  /** With a checked header, every entry of a table that is read lies inside the file and the
      64-bit offset computation does not wrap. */
  lemma EntryInFile(off: uint64, num: uint16, entsize: uint16, minSize: nat, dataSize: nat, i: nat)
    requires dataSize < TWO63 && TablePresent(num, off, dataSize)
    requires entsize >= minSize && Add64(off, num * entsize) <= dataSize
    requires i < num
    ensures Add64(off, i * entsize) == off + i * entsize
    ensures off + i * entsize + minSize <= dataSize
  {
    TableSize(num, entsize);
    EntryBelow(i, num, entsize);
    Add64Exact(off, num * entsize);
    Add64Exact(off, i * entsize);
  }

  lemma TableSize(num: uint16, entsize: uint16)
    ensures 0 <= num * entsize < TWO32
  {
    MulLe(num, 0x1_0000, entsize);
  }

  lemma EntryBelow(i: nat, num: nat, entsize: nat)
    requires i < num
    ensures 0 <= i * entsize && i * entsize + entsize <= num * entsize
  {
    MulLe(i + 1, num, entsize);
    MulLe(0, i, entsize);
  }

  /** The wrapped bound check of an announced table passes without the table being there exactly when its
      end wraps around. */
  lemma TableLostIff(off: uint64, num: uint16, entsize: uint16, dataSize: nat)
    requires dataSize < TWO63 && off > 0 && num > 0 && entsize > 0
    requires Add64(off, num * entsize) <= dataSize
    ensures TablePresent(num, off, dataSize) <==> off + num * entsize < TWO64
  {
    TableSize(num, entsize);
    EntryBelow(0, num, entsize);
    assert off + num * entsize < TWO64 ==> Add64(off, num * entsize) == off + num * entsize;
  }

  /** An accepted file that announces a table loses the whole of it, silently, if and only if the end of
      the table wraps around 2^64; losing the program headers leaves the file valid. */
  lemma HeadersLostIff(data: Buffer, elf: ElfFile)
    requires |data| < TWO63 && ParsedFrom(data, elf) && HeaderOk(elf.header, |data|)
    ensures var h := elf.header;
            && (h.phnum > 0 && h.phoff > 0 ==>
                  (elf.programHeaders == [] <==> h.phoff + h.phnum * h.phentsize >= TWO64))
            && (h.shnum > 0 && h.shoff > 0 ==>
                  (elf.sectionHeaders == [] <==> h.shoff + h.shnum * h.shentsize >= TWO64))
            && (elf.programHeaders == [] ==> elf.valid)
  {
    var h := elf.header;
    hide TableAt, DecodedSections, ReadHeader;
    if h.phnum > 0 && h.phoff > 0 {
      TableLostIff(h.phoff, h.phnum, h.phentsize, |data|);
    }
    if h.shnum > 0 && h.shoff > 0 {
      TableLostIff(h.shoff, h.shnum, h.shentsize, |data|);
    }
  }

  lemma MulLe(a: nat, b: nat, c: nat)
    requires a <= b
    ensures a * c <= b * c
  {
    assert (b - a) * c >= 0;
    assert b * c == a * c + (b - a) * c;
  }

  /** Entry i of a table is the decoding of the bytes at off + i * entsize. */
  ghost predicate EntryAt<T(!new)>(data: Buffer, off: uint64, entsize: uint16, size: nat, decode: Buffer -> T,
                                   i: nat, entry: T)
  {
    && off + i * entsize + size <= |data|
    && entry == decode(data[off + i * entsize..off + i * entsize + size])
  }

  ghost predicate TableAt<T(!new)>(data: Buffer, off: uint64, entsize: uint16, size: nat, decode: Buffer -> T,
                                   entries: seq<T>)
  {
    forall i :: 0 <= i < |entries| ==> EntryAt(data, off, entsize, size, decode, i, entries[i])
  }

  lemma AppendEntry<T(!new)>(data: Buffer, off: uint64, entsize: uint16, size: nat, decode: Buffer -> T,
                             entries: seq<T>, o: nat)
    requires TableAt(data, off, entsize, size, decode, entries)
    requires o == off + |entries| * entsize && o + size <= |data|
    ensures TableAt(data, off, entsize, size, decode, entries + [decode(data[o..o + size])])
  {
    var longer := entries + [decode(data[o..o + size])];
    assert EntryAt(data, off, entsize, size, decode, |entries|, longer[|entries|]);
    hide EntryAt;
    assert forall i :: 0 <= i < |entries| ==> longer[i] == entries[i];
  }

  /** The loop shared by both header tables; the in-loop bounds check never stops it. */
  method ReadTable<T(!new)>(data: Buffer, off: uint64, num: uint16, entsize: uint16, size: nat, decode: Buffer -> T)
    returns (entries: seq<T>)
    requires |data| < TWO63 && TablePresent(num, off, |data|)
    requires entsize >= size && Add64(off, num * entsize) <= |data|
    ensures |entries| == num
    ensures TableAt(data, off, entsize, size, decode, entries)
  {
    entries := [];
    var i := 0;
    while i < num
      invariant 0 <= i <= num && |entries| == i
      invariant TableAt(data, off, entsize, size, decode, entries)
    {
      EntryInFile(off, num, entsize, size, |data|, i);
      var o := Add64(off, i * entsize);
      if o + size > |data| {
        break;
      }
      AppendEntry(data, off, entsize, size, decode, entries, o);
      entries := entries + [decode(data[o..o + size])];
      i := i + 1;
    }
  }

  // ----- section names -----

  /** The bytes from `from` up to the next NUL or the end of the table. */
  function NameAt(strtab: Buffer, from: nat): (name: Buffer)
    requires from <= |strtab|
    ensures from + |name| <= |strtab| && name == strtab[from..from + |name|]
    ensures 0 !in name
    ensures from + |name| < |strtab| ==> strtab[from + |name|] == 0
    decreases |strtab| - from
  {
    if from == |strtab| || strtab[from] == 0 then [] else [strtab[from]] + NameAt(strtab, from + 1)
  }

  /** The string table the section names come from, empty when there is none. */
  function StringTable(hdr: ElfHeader, shs: seq<SectionHeader>, data: Buffer): Buffer {
    if hdr.shstrndx < |shs| && shs[hdr.shstrndx].type_ == SHT_STRTAB && shs[hdr.shstrndx].offset < |data| then
      var h := shs[hdr.shstrndx];
      var available := |data| - h.offset;
      data[h.offset..h.offset + (if h.size < available then h.size else available)]
    else []
  }

  function WithName(sh: SectionHeader, strtab: Buffer): SectionHeader {
    if sh.nameIdx < |strtab| then sh.(name := NameAt(strtab, sh.nameIdx)) else sh
  }

  method ResolveNames(shs0: seq<SectionHeader>, strtab: Buffer) returns (shs: seq<SectionHeader>)
    ensures |shs| == |shs0|
    ensures forall i :: 0 <= i < |shs| ==> shs[i] == WithName(shs0[i], strtab)
  {
    shs := shs0;
    for i := 0 to |shs0|
      invariant |shs| == |shs0|
      invariant forall k :: 0 <= k < i ==> shs[k] == WithName(shs0[k], strtab)
      invariant forall k :: i <= k < |shs| ==> shs[k] == shs0[k]
    {
      shs := shs[i := WithName(shs[i], strtab)];
    }
  }

  // ----- parse -----

  ghost predicate DecodedSections(hdr: ElfHeader, data: Buffer, shs: seq<SectionHeader>) {
    exists raw: seq<SectionHeader> ::
      && |raw| == |shs|
      && TableAt(data, hdr.shoff, hdr.shentsize, ShSize(hdr.elfClass), p => DecodeSectionHeader(hdr, p), raw)
      && forall i :: 0 <= i < |shs| ==> shs[i] == WithName(raw[i], StringTable(hdr, raw, data))
  }

  ghost predicate ParsedFrom(data: Buffer, elf: ElfFile) {
    var hdr := ReadHeader(data);
    && elf.header == hdr && elf.rawData == data
    && |elf.programHeaders| == (if TablePresent(hdr.phnum, hdr.phoff, |data|) then hdr.phnum else 0)
    && TableAt(data, hdr.phoff, hdr.phentsize, PhSize(hdr.elfClass), p => DecodeProgramHeader(hdr, p),
               elf.programHeaders)
    && |elf.sectionHeaders| == (if TablePresent(hdr.shnum, hdr.shoff, |data|) then hdr.shnum else 0)
    && DecodedSections(hdr, data, elf.sectionHeaders)
    && (elf.valid <==> SegmentsOk(elf.programHeaders, |data|))
  }

  method Parse(data: Buffer) returns (r: ParseResult)
    requires |data| < TWO63
    ensures r.Parsed? <==> HasValidMagic(data) && HeaderOk(ReadHeader(data), |data|)
    ensures r.Parsed? ==> ParsedFrom(data, r.elf)
  {
    if !HasValidMagic(data) {
      return InvalidElf;
    }
    var hdr := ReadHeader(data);
    if !HeaderOk(hdr, |data|) {
      return InvalidElf;
    }
    var phs: seq<ProgramHeader>, shs: seq<SectionHeader>, valid := [], [], true;
    if hdr.phnum > 0 && hdr.phentsize > 0 && hdr.phoff > 0 && hdr.phoff < |data| {
      phs := ReadTable(data, hdr.phoff, hdr.phnum, hdr.phentsize, PhSize(hdr.elfClass),
                       p => DecodeProgramHeader(hdr, p));
      valid := ValidateProgramHeaders(phs, |data|);
    }
    ghost var raw: seq<SectionHeader> := [];
    if hdr.shnum > 0 && hdr.shentsize > 0 && hdr.shoff > 0 && hdr.shoff < |data| {
      shs := ReadTable(data, hdr.shoff, hdr.shnum, hdr.shentsize, ShSize(hdr.elfClass),
                       p => DecodeSectionHeader(hdr, p));
      raw := shs;
      shs := ResolveNames(shs, StringTable(hdr, shs, data));
    }
    assert DecodedSections(hdr, data, shs);
    r := Parsed(ElfFile(hdr, phs, shs, data, valid));
  }
}
