/** Which files the parser accepts and what it returns for them, said on the bytes of the file and the record
    layouts of `ElfLayout`, for either class and byte order. */
module ElfAcceptance {
  import opened Bytes
  import opened ElfParser
  import opened ElfLayout

  // ----- acceptance -----

  /** The file starts with this header. */
  ghost predicate StartsWith(data: Buffer, h: ElfHeader) {
    && |data| >= 52
    && data[..4] == [0x7F, 0x45, 0x4C, 0x46]
    && data[4..9] == [h.elfClass, h.endian, h.version, h.osAbi, h.abiVersion]
    && h.endian != 0
    && ((h.elfClass == 1 && IsEhdr32(data, h, h.endian)) || (h.elfClass == 2 && |data| >= 64 && IsEhdr64(data, h, h.endian)))
  }

  /** A table whose entries are large enough and whose end, in 64-bit arithmetic, lies in the file. */
  predicate TableOk(off: nat, num: nat, entsize: nat, minimum: nat, size: nat) {
    && (num > 0 ==> entsize >= minimum)
    && (off > 0 ==> (off + num * entsize) % 0x1_0000_0000_0000_0000 <= size)
  }

  /** What an accepted header satisfies. */
  predicate Sound(h: ElfHeader, size: nat) {
    && h.elfVersion == 1 && h.machine != 0
    && TableOk(h.phoff, h.phnum, h.phentsize, if h.elfClass == 2 then 56 else 32, size)
    && TableOk(h.shoff, h.shnum, h.shentsize, if h.elfClass == 2 then 64 else 40, size)
    && (h.phoff > 0 ==> h.phoff >= if h.ehsize > 0 then h.ehsize else 52)
  }

  lemma SoundIff(h: ElfHeader, size: nat)
    requires h.endian != 0 && (h.elfClass == 1 || h.elfClass == 2)
    ensures HeaderOk(h, size) <==> Sound(h, size)
  {
    assert Add64(h.phoff, h.phnum * h.phentsize) == (h.phoff + h.phnum * h.phentsize) % 0x1_0000_0000_0000_0000;
    assert Add64(h.shoff, h.shnum * h.shentsize) == (h.shoff + h.shnum * h.shentsize) % 0x1_0000_0000_0000_0000;
    hide Add64;
  }

  /** A header that passes the checks was read in full. */
  lemma OkHeaderStarts(data: Buffer)
    requires HasValidMagic(data) && HeaderOk(ReadHeader(data), |data|)
    ensures StartsWith(data, ReadHeader(data))
  {
    ReadFully(data);
    var h := ReadHeader(data);
    hide ReadHeader, HeaderOk, IsEhdr32, IsEhdr64;
    if data[4] == ELF64 {
      ReadsEhdr64(data, h);
    } else {
      ReadsEhdr32(data, h);
    }
  }

  lemma ReadFully(data: Buffer)
    requires HeaderOk(ReadHeader(data), |data|)
    ensures |data| >= 52 && data[5] != 0 && ReadHeader(data).endian == data[5] && ReadHeader(data).elfClass == data[4]
    ensures (data[4] == ELF64 && |data| >= 64) || data[4] == ELF32
  {
    assert |data| >= 52;
    assert ReadHeader(data).elfVersion == 1;
    hide ReadUint;
  }

  lemma StartsReads(data: Buffer, h: ElfHeader)
    requires StartsWith(data, h)
    ensures ReadHeader(data) == h && HasValidMagic(data)
  {
    assert data[4..9][0] == data[4] && data[4..9][1] == data[5];
    hide ReadHeader, IsEhdr32, IsEhdr64;
    if h.elfClass == 2 {
      ReadsEhdr64(data, h);
    } else {
      ReadsEhdr32(data, h);
    }
  }

  lemma AcceptedIff(data: Buffer)
    ensures HasValidMagic(data) && HeaderOk(ReadHeader(data), |data|) <==>
            exists h :: StartsWith(data, h) && Sound(h, |data|)
  {
    hide ReadHeader, HeaderOk, Sound, IsEhdr32, IsEhdr64;
    if HasValidMagic(data) && HeaderOk(ReadHeader(data), |data|) {
      OkHeaderStarts(data);
      SoundIff(ReadHeader(data), |data|);
    }
    if h :| StartsWith(data, h) && Sound(h, |data|) {
      StartsReads(data, h);
      SoundIff(h, |data|);
    }
  }

  /** A table that lies in the file as a whole passes its check. */
  lemma TableInside(off: nat, num: nat, entsize: nat, minimum: nat, size: nat)
    requires num > 0 ==> entsize >= minimum
    requires off + num * entsize <= size < 0x8000_0000_0000_0000
    ensures TableOk(off, num, entsize, minimum, size)
  {
  }

  // ----- the segments -----

  predicate DataInside(ph: ProgramHeader, size: nat) {
    ph.offset + ph.filesz <= size
  }

  /** Two half-open address ranges, their ends in 64-bit arithmetic, have both starts below the other's end. */
  predicate Meet(a: ProgramHeader, b: ProgramHeader) {
    && a.vaddr < (b.vaddr + b.memsz) % 0x1_0000_0000_0000_0000
    && b.vaddr < (a.vaddr + a.memsz) % 0x1_0000_0000_0000_0000
  }

  ghost predicate GoodSegments(phs: seq<ProgramHeader>, size: nat) {
    && (forall i :: 0 <= i < |phs| && phs[i].type_ != 0 ==> DataInside(phs[i], size))
    && (forall i, j :: 0 <= i < j < |phs| && phs[i].type_ == 1 && phs[j].type_ == 1 ==> !Meet(phs[i], phs[j]))
  }

  lemma GoodSegmentsIff(phs: seq<ProgramHeader>, size: nat)
    ensures SegmentsOk(phs, size) <==> GoodSegments(phs, size)
  {
    assert forall ph: ProgramHeader :: InFile(ph, size) <==> DataInside(ph, size);
    assert forall a: ProgramHeader, b: ProgramHeader :: Overlap(a, b) <==> Meet(a, b);
    hide InFile, DataInside, Overlap, Meet;
  }

  /** Segments that have memory and do not wrap meet exactly if they share an address. */
  lemma MeetIffShared(a: ProgramHeader, b: ProgramHeader)
    requires 0 < a.memsz && a.vaddr + a.memsz < 0x1_0000_0000_0000_0000
    requires 0 < b.memsz && b.vaddr + b.memsz < 0x1_0000_0000_0000_0000
    ensures Meet(a, b) <==> exists x :: InSegment(a, x) && InSegment(b, x)
  {
    if Meet(a, b) {
      assert InSegment(a, if a.vaddr < b.vaddr then b.vaddr else a.vaddr);
    }
  }

  predicate InSegment(ph: ProgramHeader, x: int) {
    ph.vaddr <= x < ph.vaddr + ph.memsz
  }

  // ----- the entries -----

  /** A table of a file is read when it is announced and starts strictly inside the file. */
  predicate Present(num: nat, off: nat, size: nat) {
    num > 0 && 0 < off < size
  }

  /** Entry i of the program header table, laid out in the file's class and byte order. */
  ghost predicate HasProgramHeader(data: Buffer, h: ElfHeader, i: nat, ph: ProgramHeader) {
    var o := h.phoff + i * h.phentsize;
    if h.elfClass == 2 then o + 56 <= |data| && IsPhdr64(data[o..o + 56], ph, h.endian)
    else o + 32 <= |data| && IsPhdr32(data[o..o + 32], ph, h.endian)
  }

  ghost predicate HasSectionHeader(data: Buffer, h: ElfHeader, i: nat, sh: SectionHeader) {
    var o := h.shoff + i * h.shentsize;
    if h.elfClass == 2 then o + 64 <= |data| && IsShdr64(data[o..o + 64], sh, h.endian)
    else o + 40 <= |data| && IsShdr32(data[o..o + 40], sh, h.endian)
  }

  lemma ProgramHeaderAt(data: Buffer, h: ElfHeader, phs: seq<ProgramHeader>, i: nat)
    requires i < |phs|
    requires TableAt(data, h.phoff, h.phentsize, PhSize(h.elfClass), p => DecodeProgramHeader(h, p), phs)
    ensures HasProgramHeader(data, h, i, phs[i])
  {
    var decode := p => DecodeProgramHeader(h, p);
    var size := PhSize(h.elfClass);
    assert EntryAt(data, h.phoff, h.phentsize, size, decode, i, phs[i]);
    var o := h.phoff + i * h.phentsize;
    var slice := data[o..o + size];
    assert phs[i] == DecodeProgramHeader(h, slice);
    hide TableAt, IsPhdr64, IsPhdr32, ReadProgramHeader64, ReadProgramHeader32;
    if h.elfClass == 2 {
      ReadsPhdr64(slice, h.endian, phs[i]);
    } else {
      ReadsPhdr32(slice, h.endian, phs[i]);
    }
  }

  lemma SectionHeaderAt(data: Buffer, h: ElfHeader, shs: seq<SectionHeader>, i: nat)
    requires i < |shs|
    requires TableAt(data, h.shoff, h.shentsize, ShSize(h.elfClass), p => DecodeSectionHeader(h, p), shs)
    ensures HasSectionHeader(data, h, i, shs[i]) && shs[i].name == []
  {
    var decode := p => DecodeSectionHeader(h, p);
    var size := ShSize(h.elfClass);
    assert EntryAt(data, h.shoff, h.shentsize, size, decode, i, shs[i]);
    var o := h.shoff + i * h.shentsize;
    var slice := data[o..o + size];
    assert shs[i] == DecodeSectionHeader(h, slice);
    assert shs[i].name == [];
    assert shs[i] == shs[i].(name := []);
    hide TableAt, IsShdr64, IsShdr32, ReadSectionHeader64, ReadSectionHeader32;
    if h.elfClass == 2 {
      ReadsShdr64(slice, h.endian, shs[i]);
    } else {
      ReadsShdr32(slice, h.endian, shs[i]);
    }
  }

  // ----- the section names -----

  /** The name table: a string-table section named by the header that starts inside the file. */
  ghost predicate HasNames(data: Buffer, h: ElfHeader, shs: seq<SectionHeader>) {
    h.shstrndx < |shs| && shs[h.shstrndx].type_ == 3 && shs[h.shstrndx].offset < |data|
  }

  /** The name lies in the file at its index in the table, holds no zero, and ends before a zero, at the end of
      the table or at the end of the file. */
  ghost predicate Named(data: Buffer, table: SectionHeader, sh: SectionHeader) {
    var from := table.offset + sh.nameIdx;
    var to := from + |sh.name|;
    && to <= |data| && sh.nameIdx + |sh.name| <= table.size
    && sh.name == data[from..to] && 0 !in sh.name
    && (sh.nameIdx + |sh.name| == table.size || to == |data| || data[to] == 0)
  }

  ghost predicate NamesOk(data: Buffer, h: ElfHeader, shs: seq<SectionHeader>) {
    forall i :: 0 <= i < |shs| ==>
      if HasNames(data, h, shs) && shs[i].nameIdx < shs[h.shstrndx].size
         && shs[h.shstrndx].offset + shs[i].nameIdx < |data| then Named(data, shs[h.shstrndx], shs[i])
      else shs[i].name == []
  }

  lemma NameOfSection(data: Buffer, h: ElfHeader, raw: seq<SectionHeader>, sh: SectionHeader)
    requires sh.name == []
    ensures var named := WithName(sh, StringTable(h, raw, data));
            if HasNames(data, h, raw) && sh.nameIdx < raw[h.shstrndx].size
               && raw[h.shstrndx].offset + sh.nameIdx < |data| then Named(data, raw[h.shstrndx], named)
            else named.name == []
  {
    var strtab := StringTable(h, raw, data);
    if HasNames(data, h, raw) && sh.nameIdx < |strtab| {
      var off := raw[h.shstrndx].offset;
      var name := NameAt(strtab, sh.nameIdx);
      var from := off + sh.nameIdx;
      assert strtab == data[off..off + |strtab|];
      forall k | 0 <= k < |name| ensures name[k] == data[from..from + |name|][k] {
        assert name[k] == strtab[sh.nameIdx + k];
      }
      assert name == data[from..from + |name|];
      assert sh.nameIdx + |name| < |strtab| ==> data[from + |name|] == strtab[sh.nameIdx + |name|];
    }
  }

  // ----- the parse as a whole -----

  /** What a successful parse returns. */
  ghost predicate Describes(data: Buffer, elf: ElfFile) {
    var h := elf.header;
    && StartsWith(data, h) && elf.rawData == data
    && |elf.programHeaders| == (if Present(h.phnum, h.phoff, |data|) then h.phnum else 0)
    && (forall i :: 0 <= i < |elf.programHeaders| ==> HasProgramHeader(data, h, i, elf.programHeaders[i]))
    && |elf.sectionHeaders| == (if Present(h.shnum, h.shoff, |data|) then h.shnum else 0)
    && (forall i :: 0 <= i < |elf.sectionHeaders| ==> HasSectionHeader(data, h, i, elf.sectionHeaders[i]))
    && NamesOk(data, h, elf.sectionHeaders)
    && (elf.valid <==> GoodSegments(elf.programHeaders, |data|))
  }

  lemma SameLayout(data: Buffer, h: ElfHeader, i: nat, sh: SectionHeader, name: Buffer)
    requires HasSectionHeader(data, h, i, sh)
    ensures HasSectionHeader(data, h, i, sh.(name := name))
  {
    hide Holds;
  }

  lemma SectionsDescribed(data: Buffer, h: ElfHeader, shs: seq<SectionHeader>)
    requires DecodedSections(h, data, shs)
    ensures forall i :: 0 <= i < |shs| ==> HasSectionHeader(data, h, i, shs[i])
    ensures NamesOk(data, h, shs)
  {
    hide HasSectionHeader, TableAt, Named, StringTable;
    var decode := p => DecodeSectionHeader(h, p);
    var raw: seq<SectionHeader> :|
      && |raw| == |shs|
      && TableAt(data, h.shoff, h.shentsize, ShSize(h.elfClass), p => DecodeSectionHeader(h, p), raw)
      && forall i :: 0 <= i < |shs| ==> shs[i] == WithName(raw[i], StringTable(h, raw, data));
    forall i | 0 <= i < |shs|
      ensures HasSectionHeader(data, h, i, shs[i]) && raw[i].name == []
      ensures shs[i] == raw[i].(name := shs[i].name)
    {
      SectionHeaderAt(data, h, raw, i);
      assert shs[i] == raw[i].(name := shs[i].name);
      SameLayout(data, h, i, raw[i], shs[i].name);
    }
    assert HasNames(data, h, shs) <==> HasNames(data, h, raw);
    forall i | 0 <= i < |shs|
      ensures if HasNames(data, h, shs) && shs[i].nameIdx < shs[h.shstrndx].size
                 && shs[h.shstrndx].offset + shs[i].nameIdx < |data| then Named(data, shs[h.shstrndx], shs[i])
              else shs[i].name == []
    {
      NameOfSection(data, h, raw, raw[i]);
      if HasNames(data, h, shs) {
        SameTable(data, raw[h.shstrndx], shs[h.shstrndx], shs[i]);
      }
    }
  }

  lemma SameTable(data: Buffer, a: SectionHeader, b: SectionHeader, sh: SectionHeader)
    requires a.offset == b.offset && a.size == b.size
    ensures Named(data, a, sh) <==> Named(data, b, sh)
  {
  }

  lemma ParsedDescribes(data: Buffer, elf: ElfFile)
    requires ParsedFrom(data, elf) && HasValidMagic(data) && HeaderOk(elf.header, |data|)
    ensures Describes(data, elf)
  {
    var h := elf.header;
    hide StartsWith, HasProgramHeader, HasSectionHeader, NamesOk, SegmentsOk, GoodSegments, ReadHeader, HeaderOk, TableAt,
         DecodedSections;
    OkHeaderStarts(data);
    GoodSegmentsIff(elf.programHeaders, |data|);
    SectionsDescribed(data, h, elf.sectionHeaders);
    forall i | 0 <= i < |elf.programHeaders| ensures HasProgramHeader(data, h, i, elf.programHeaders[i]) {
      ProgramHeaderAt(data, h, elf.programHeaders, i);
    }
  }

  /** The parser, on the bytes of the file: it succeeds if and only if the file starts with a sound header of
      either class, and returns what the file holds. */
  method ParseFile(data: Buffer) returns (r: ParseResult)
    requires |data| < 0x8000_0000_0000_0000
    ensures r.Parsed? <==> exists h :: StartsWith(data, h) && Sound(h, |data|)
    ensures r.Parsed? ==> Describes(data, r.elf) && Sound(r.elf.header, |data|)
  {
    assert |data| < TWO63;
    hide *;
    AcceptedIff(data);
    r := Parse(data);
    if r.Parsed? {
      ParsedSound(data, r.elf);
    }
  }

  lemma ParsedSound(data: Buffer, elf: ElfFile)
    requires ParsedFrom(data, elf) && HasValidMagic(data) && HeaderOk(ReadHeader(data), |data|)
    ensures Describes(data, elf) && Sound(elf.header, |data|)
  {
    ReadFully(data);
    hide HeaderOk, Describes, Sound, ReadHeader, TableAt, DecodedSections, SegmentsOk;
    ParsedDescribes(data, elf);
    SoundIff(elf.header, |data|);
  }
}
