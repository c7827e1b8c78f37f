/** The record layouts of the System V ABI (ELF header, program header and section header) as
    tables of offset, width and value, and the proof that the readers accept exactly these
    layouts, in either byte order. */
module ElfLayout {
  import opened Bytes
  import opened ElfParser

  /** The `width` bytes at `off` encode v. */
  ghost predicate Holds(p: Buffer, off: nat, width: nat, v: nat, e: byte) {
    && off + width <= |p|
    && p[off..off + width] == Encoded(v, width, e)
    && v < Pow256(width)
  }

  lemma HoldsIffRead(p: Buffer, off: nat, width: nat, v: nat, e: byte)
    requires off + width <= |p|
    ensures Holds(p, off, width, v, e) <==> ReadUint(p[off..off + width], e) == v
  {
    ReadIffEncoded(p[off..off + width], v, e);
  }

  ghost predicate IsPhdr64(p: Buffer, ph: ProgramHeader, e: byte) {
    && Holds(p, 0, 4, ph.type_, e) && Holds(p, 4, 4, ph.flags, e) && Holds(p, 8, 8, ph.offset, e)
    && Holds(p, 16, 8, ph.vaddr, e) && Holds(p, 24, 8, ph.paddr, e) && Holds(p, 32, 8, ph.filesz, e)
    && Holds(p, 40, 8, ph.memsz, e) && Holds(p, 48, 8, ph.align, e)
  }

  lemma ReadsPhdr64(p: Buffer, e: byte, ph: ProgramHeader)
    requires |p| == 56
    ensures ReadProgramHeader64(p, e) == ph <==> IsPhdr64(p, ph, e)
  {
    hide Holds, ReadUint, Encoded, Pow256;
    HoldsIffRead(p, 0, 4, ph.type_, e); HoldsIffRead(p, 4, 4, ph.flags, e);
    HoldsIffRead(p, 8, 8, ph.offset, e); HoldsIffRead(p, 16, 8, ph.vaddr, e);
    HoldsIffRead(p, 24, 8, ph.paddr, e); HoldsIffRead(p, 32, 8, ph.filesz, e);
    HoldsIffRead(p, 40, 8, ph.memsz, e); HoldsIffRead(p, 48, 8, ph.align, e);
  }

  ghost predicate IsPhdr32(p: Buffer, ph: ProgramHeader, e: byte) {
    && Holds(p, 0, 4, ph.type_, e) && Holds(p, 4, 4, ph.offset, e) && Holds(p, 8, 4, ph.vaddr, e)
    && Holds(p, 12, 4, ph.paddr, e) && Holds(p, 16, 4, ph.filesz, e) && Holds(p, 20, 4, ph.memsz, e)
    && Holds(p, 24, 4, ph.flags, e) && Holds(p, 28, 4, ph.align, e)
  }

  lemma ReadsPhdr32(p: Buffer, e: byte, ph: ProgramHeader)
    requires |p| == 32
    ensures ReadProgramHeader32(p, e) == ph <==> IsPhdr32(p, ph, e)
  {
    hide Holds, ReadUint, Encoded, Pow256;
    HoldsIffRead(p, 0, 4, ph.type_, e); HoldsIffRead(p, 4, 4, ph.offset, e);
    HoldsIffRead(p, 8, 4, ph.vaddr, e); HoldsIffRead(p, 12, 4, ph.paddr, e);
    HoldsIffRead(p, 16, 4, ph.filesz, e); HoldsIffRead(p, 20, 4, ph.memsz, e);
    HoldsIffRead(p, 24, 4, ph.flags, e); HoldsIffRead(p, 28, 4, ph.align, e);
  }

  ghost predicate IsShdr64(p: Buffer, sh: SectionHeader, e: byte) {
    && Holds(p, 0, 4, sh.nameIdx, e) && Holds(p, 4, 4, sh.type_, e) && Holds(p, 8, 8, sh.flags, e)
    && Holds(p, 16, 8, sh.addr, e) && Holds(p, 24, 8, sh.offset, e) && Holds(p, 32, 8, sh.size, e)
    && Holds(p, 40, 4, sh.link, e) && Holds(p, 44, 4, sh.info, e) && Holds(p, 48, 8, sh.addralign, e)
    && Holds(p, 56, 8, sh.entsize, e)
  }

  lemma ReadsShdr64(p: Buffer, e: byte, sh: SectionHeader)
    requires |p| == 64
    ensures ReadSectionHeader64(p, e) == sh.(name := []) <==> IsShdr64(p, sh, e)
  {
    hide Holds, ReadUint, Encoded, Pow256;
    HoldsIffRead(p, 0, 4, sh.nameIdx, e); HoldsIffRead(p, 4, 4, sh.type_, e);
    HoldsIffRead(p, 8, 8, sh.flags, e); HoldsIffRead(p, 16, 8, sh.addr, e);
    HoldsIffRead(p, 24, 8, sh.offset, e); HoldsIffRead(p, 32, 8, sh.size, e);
    HoldsIffRead(p, 40, 4, sh.link, e); HoldsIffRead(p, 44, 4, sh.info, e);
    HoldsIffRead(p, 48, 8, sh.addralign, e); HoldsIffRead(p, 56, 8, sh.entsize, e);
  }

  ghost predicate IsShdr32(p: Buffer, sh: SectionHeader, e: byte) {
    && Holds(p, 0, 4, sh.nameIdx, e) && Holds(p, 4, 4, sh.type_, e) && Holds(p, 8, 4, sh.flags, e)
    && Holds(p, 12, 4, sh.addr, e) && Holds(p, 16, 4, sh.offset, e) && Holds(p, 20, 4, sh.size, e)
    && Holds(p, 24, 4, sh.link, e) && Holds(p, 28, 4, sh.info, e) && Holds(p, 32, 4, sh.addralign, e)
    && Holds(p, 36, 4, sh.entsize, e)
  }

  lemma ReadsShdr32(p: Buffer, e: byte, sh: SectionHeader)
    requires |p| == 40
    ensures ReadSectionHeader32(p, e) == sh.(name := []) <==> IsShdr32(p, sh, e)
  {
    hide Holds, ReadUint, Encoded, Pow256;
    HoldsIffRead(p, 0, 4, sh.nameIdx, e); HoldsIffRead(p, 4, 4, sh.type_, e);
    HoldsIffRead(p, 8, 4, sh.flags, e); HoldsIffRead(p, 12, 4, sh.addr, e);
    HoldsIffRead(p, 16, 4, sh.offset, e); HoldsIffRead(p, 20, 4, sh.size, e);
    HoldsIffRead(p, 24, 4, sh.link, e); HoldsIffRead(p, 28, 4, sh.info, e);
    HoldsIffRead(p, 32, 4, sh.addralign, e); HoldsIffRead(p, 36, 4, sh.entsize, e);
  }

  ghost predicate IsEhdr64(p: Buffer, h: ElfHeader, e: byte) {
    && Holds(p, 16, 2, h.type_, e) && Holds(p, 18, 2, h.machine, e) && Holds(p, 20, 4, h.elfVersion, e)
    && Holds(p, 24, 8, h.entry, e) && Holds(p, 32, 8, h.phoff, e) && Holds(p, 40, 8, h.shoff, e)
    && Holds(p, 48, 4, h.flags, e) && Holds(p, 52, 2, h.ehsize, e) && Holds(p, 54, 2, h.phentsize, e)
    && Holds(p, 56, 2, h.phnum, e) && Holds(p, 58, 2, h.shentsize, e) && Holds(p, 60, 2, h.shnum, e)
    && Holds(p, 62, 2, h.shstrndx, e)
  }

  lemma ReadsEhdr64(p: Buffer, h: ElfHeader)
    requires |p| >= 64 && p[4] == ELF64 && p[5] != 0
    ensures ReadHeader(p) == h <==> p[4..9] == [h.elfClass, h.endian, h.version, h.osAbi, h.abiVersion] && IsEhdr64(p, h, p[5])
  {
    hide Holds, ReadUint, Encoded, Pow256;
    var e := p[5];
    assert p[4..9] == [p[4], p[5], p[6], p[7], p[8]];
    HoldsIffRead(p, 16, 2, h.type_, e); HoldsIffRead(p, 18, 2, h.machine, e);
    HoldsIffRead(p, 20, 4, h.elfVersion, e); HoldsIffRead(p, 24, 8, h.entry, e);
    HoldsIffRead(p, 32, 8, h.phoff, e); HoldsIffRead(p, 40, 8, h.shoff, e);
    HoldsIffRead(p, 48, 4, h.flags, e); HoldsIffRead(p, 52, 2, h.ehsize, e);
    HoldsIffRead(p, 54, 2, h.phentsize, e); HoldsIffRead(p, 56, 2, h.phnum, e);
    HoldsIffRead(p, 58, 2, h.shentsize, e); HoldsIffRead(p, 60, 2, h.shnum, e);
    HoldsIffRead(p, 62, 2, h.shstrndx, e);
  }

  ghost predicate IsEhdr32(p: Buffer, h: ElfHeader, e: byte) {
    && Holds(p, 16, 2, h.type_, e) && Holds(p, 18, 2, h.machine, e) && Holds(p, 20, 4, h.elfVersion, e)
    && Holds(p, 24, 4, h.entry, e) && Holds(p, 28, 4, h.phoff, e) && Holds(p, 32, 4, h.shoff, e)
    && Holds(p, 36, 4, h.flags, e) && Holds(p, 40, 2, h.ehsize, e) && Holds(p, 42, 2, h.phentsize, e)
    && Holds(p, 44, 2, h.phnum, e) && Holds(p, 46, 2, h.shentsize, e) && Holds(p, 48, 2, h.shnum, e)
    && Holds(p, 50, 2, h.shstrndx, e)
  }

  lemma ReadsEhdr32(p: Buffer, h: ElfHeader)
    requires |p| >= 52 && p[4] == ELF32 && p[5] != 0
    ensures ReadHeader(p) == h <==> p[4..9] == [h.elfClass, h.endian, h.version, h.osAbi, h.abiVersion] && IsEhdr32(p, h, p[5])
  {
    hide Holds, ReadUint, Encoded, Pow256;
    var e := p[5];
    assert p[4..9] == [p[4], p[5], p[6], p[7], p[8]];
    HoldsIffRead(p, 16, 2, h.type_, e); HoldsIffRead(p, 18, 2, h.machine, e);
    HoldsIffRead(p, 20, 4, h.elfVersion, e); HoldsIffRead(p, 24, 4, h.entry, e);
    HoldsIffRead(p, 28, 4, h.phoff, e); HoldsIffRead(p, 32, 4, h.shoff, e);
    HoldsIffRead(p, 36, 4, h.flags, e); HoldsIffRead(p, 40, 2, h.ehsize, e);
    HoldsIffRead(p, 42, 2, h.phentsize, e); HoldsIffRead(p, 44, 2, h.phnum, e);
    HoldsIffRead(p, 46, 2, h.shentsize, e); HoldsIffRead(p, 48, 2, h.shnum, e);
    HoldsIffRead(p, 50, 2, h.shstrndx, e);
  }

  // ----- every header can be written -----

  /** Appending a field: it holds at the old end, and fields already there still hold. */
  lemma Append(p: Buffer, v: nat, width: nat, e: byte) returns (q: Buffer)
    requires v < Pow256(width)
    ensures |q| == |p| + width && (|p| >= 16 ==> q[..16] == p[..16]) && Holds(q, |p|, width, v, e)
    ensures forall off: nat, w: nat, u: nat :: Holds(p, off, w, u, e) ==> Holds(q, off, w, u, e)
  {
    hide Encoded, Pow256;
    q := p + Encoded(v, width, e);
    assert q[|p|..|p| + width] == Encoded(v, width, e);
    assert Extends(q, p);
    assert Holds(q, |p|, width, v, e);
    assert |p| >= 16 ==> q[..16] == p[..16];
    hide Holds, Extends;
    forall off: nat, w: nat, u: nat | Holds(p, off, w, u, e) ensures Holds(q, off, w, u, e) {
      HoldsLonger(p, q, off, w, u, e);
    }
  }

  ghost predicate Extends(q: Buffer, p: Buffer) {
    |p| <= |q| && forall i :: 0 <= i < |p| ==> q[i] == p[i]
  }

  lemma HoldsLonger(p: Buffer, q: Buffer, off: nat, width: nat, v: nat, e: byte)
    requires Extends(q, p) && Holds(p, off, width, v, e)
    ensures Holds(q, off, width, v, e)
  {
    hide Encoded, Pow256;
    var a, b := q[off..off + width], p[off..off + width];
    forall i | 0 <= i < width ensures a[i] == b[i] {
      assert a[i] == q[off + i] && b[i] == p[off + i];
    }
  }

  lemma Widths()
    ensures Pow256(2) == 0x1_0000 && Pow256(4) == TWO32 && Pow256(8) == TWO64
  {
    assert Pow256(4) == 256 * 256 * Pow256(2);
    assert Pow256(6) == 256 * 256 * Pow256(4);
    assert Pow256(8) == 256 * 256 * Pow256(6);
  }

  /** The second half of a header, from the flags on, is the same in both classes. */
  lemma WriteTail(p0: Buffer, h: ElfHeader, e: byte) returns (p: Buffer)
    requires |p0| >= 16
    ensures |p| == |p0| + 16 && p[..16] == p0[..16]
    ensures Holds(p, |p0|, 4, h.flags, e) && Holds(p, |p0| + 4, 2, h.ehsize, e) && Holds(p, |p0| + 6, 2, h.phentsize, e)
    ensures Holds(p, |p0| + 8, 2, h.phnum, e) && Holds(p, |p0| + 10, 2, h.shentsize, e)
    ensures Holds(p, |p0| + 12, 2, h.shnum, e) && Holds(p, |p0| + 14, 2, h.shstrndx, e)
    ensures forall off: nat, w: nat, u: nat :: Holds(p0, off, w, u, e) ==> Holds(p, off, w, u, e)
  {
    Widths();
    hide Holds, Pow256;
    p := Append(p0, h.flags, 4, e);
    p := Append(p, h.ehsize, 2, e);
    p := Append(p, h.phentsize, 2, e);
    p := Append(p, h.phnum, 2, e);
    p := Append(p, h.shentsize, 2, e);
    p := Append(p, h.shnum, 2, e);
    p := Append(p, h.shstrndx, 2, e);
  }

  lemma WriteFields(p0: Buffer, h: ElfHeader, e: byte) returns (p: Buffer)
    requires |p0| == 16
    ensures |p| == 64 && p[..16] == p0 && IsEhdr64(p, h, e)
  {
    Widths();
    assert p0[..16] == p0;
    hide Holds, Pow256;
    p := Append(p0, h.type_, 2, e);
    p := Append(p, h.machine, 2, e);
    p := Append(p, h.elfVersion, 4, e);
    p := Append(p, h.entry, 8, e);
    p := Append(p, h.phoff, 8, e);
    p := Append(p, h.shoff, 8, e);
    p := WriteTail(p, h, e);
  }

  /** Every 64-bit header value is read back from some file of 64 bytes. */
  lemma WriteHeader64(h: ElfHeader) returns (p: Buffer)
    requires h.elfClass == ELF64 && h.endian != 0
    ensures |p| == 64 && HasValidMagic(p) && ReadHeader(p) == h
  {
    var ident: Buffer := [0x7F, 0x45, 0x4C, 0x46, ELF64, h.endian, h.version, h.osAbi, h.abiVersion] + [0, 0, 0, 0, 0, 0, 0];
    p := WriteFields(ident, h, h.endian);
    assert p[..4] == p[..16][..4] && p[4..9] == p[..16][4..9];
    assert p[4] == p[..16][4] && p[5] == p[..16][5];
    hide IsEhdr64, ReadHeader;
    ReadsEhdr64(p, h);
  }

  lemma WriteFields32(p0: Buffer, h: ElfHeader, e: byte) returns (p: Buffer)
    requires |p0| == 16 && h.entry < TWO32 && h.phoff < TWO32 && h.shoff < TWO32
    ensures |p| == 52 && p[..16] == p0 && IsEhdr32(p, h, e)
  {
    Widths();
    assert p0[..16] == p0;
    hide Holds, Pow256;
    p := Append(p0, h.type_, 2, e);
    p := Append(p, h.machine, 2, e);
    p := Append(p, h.elfVersion, 4, e);
    p := Append(p, h.entry, 4, e);
    p := Append(p, h.phoff, 4, e);
    p := Append(p, h.shoff, 4, e);
    p := WriteTail(p, h, e);
  }

  /** Every 32-bit header value is read back from some file of 52 bytes. */
  lemma WriteHeader32(h: ElfHeader) returns (p: Buffer)
    requires h.elfClass == ELF32 && h.endian != 0
    requires h.entry < TWO32 && h.phoff < TWO32 && h.shoff < TWO32
    ensures |p| == 52 && HasValidMagic(p) && ReadHeader(p) == h
  {
    var ident: Buffer := [0x7F, 0x45, 0x4C, 0x46, ELF32, h.endian, h.version, h.osAbi, h.abiVersion] + [0, 0, 0, 0, 0, 0, 0];
    p := WriteFields32(ident, h, h.endian);
    assert p[..4] == p[..16][..4] && p[4..9] == p[..16][4..9];
    assert p[4] == p[..16][4] && p[5] == p[..16][5];
    hide IsEhdr32, ReadHeader;
    ReadsEhdr32(p, h);
  }

  /** The fields of a header hold in every longer file too. */
  lemma LongerHeader(p: Buffer, q: Buffer, h: ElfHeader)
    requires 64 <= |p| && Extends(q, p)
    requires p[4] == ELF64 && p[5] != 0 && ReadHeader(p) == h
    ensures ReadHeader(q) == h
  {
    var e := p[5];
    assert q[4..9] == p[4..9] && |q| >= |p| && q[4] == p[4] && q[5] == p[5];
    hide ReadHeader, Holds, Extends;
    ReadsEhdr64(p, h);
    HoldsLonger(p, q, 16, 2, h.type_, e); HoldsLonger(p, q, 18, 2, h.machine, e);
    HoldsLonger(p, q, 20, 4, h.elfVersion, e); HoldsLonger(p, q, 24, 8, h.entry, e);
    HoldsLonger(p, q, 32, 8, h.phoff, e); HoldsLonger(p, q, 40, 8, h.shoff, e);
    HoldsLonger(p, q, 48, 4, h.flags, e); HoldsLonger(p, q, 52, 2, h.ehsize, e);
    HoldsLonger(p, q, 54, 2, h.phentsize, e); HoldsLonger(p, q, 56, 2, h.phnum, e);
    HoldsLonger(p, q, 58, 2, h.shentsize, e); HoldsLonger(p, q, 60, 2, h.shnum, e);
    HoldsLonger(p, q, 62, 2, h.shstrndx, e);
    ReadsEhdr64(q, h);
  }

  lemma LongerHeader32(p: Buffer, q: Buffer, h: ElfHeader)
    requires 52 <= |p| && Extends(q, p)
    requires p[4] == ELF32 && p[5] != 0 && ReadHeader(p) == h
    ensures ReadHeader(q) == h
  {
    var e := p[5];
    assert q[4..9] == p[4..9] && |q| >= |p| && q[4] == p[4] && q[5] == p[5];
    hide ReadHeader, Holds, Extends;
    ReadsEhdr32(p, h);
    HoldsLonger(p, q, 16, 2, h.type_, e); HoldsLonger(p, q, 18, 2, h.machine, e);
    HoldsLonger(p, q, 20, 4, h.elfVersion, e); HoldsLonger(p, q, 24, 4, h.entry, e);
    HoldsLonger(p, q, 28, 4, h.phoff, e); HoldsLonger(p, q, 32, 4, h.shoff, e);
    HoldsLonger(p, q, 36, 4, h.flags, e); HoldsLonger(p, q, 40, 2, h.ehsize, e);
    HoldsLonger(p, q, 42, 2, h.phentsize, e); HoldsLonger(p, q, 44, 2, h.phnum, e);
    HoldsLonger(p, q, 46, 2, h.shentsize, e); HoldsLonger(p, q, 48, 2, h.shnum, e);
    HoldsLonger(p, q, 50, 2, h.shstrndx, e);
    ReadsEhdr32(q, h);
  }

  /** Every 64-bit program header is read back from some 56 bytes. */
  lemma WriteProgramHeader64(ph: ProgramHeader, e: byte) returns (p: Buffer)
    ensures |p| == 56 && ReadProgramHeader64(p, e) == ph
  {
    Widths();
    hide Holds, Pow256, ReadProgramHeader64;
    p := Append([], ph.type_, 4, e);
    p := Append(p, ph.flags, 4, e);
    p := Append(p, ph.offset, 8, e);
    p := Append(p, ph.vaddr, 8, e);
    p := Append(p, ph.paddr, 8, e);
    p := Append(p, ph.filesz, 8, e);
    p := Append(p, ph.memsz, 8, e);
    p := Append(p, ph.align, 8, e);
    ReadsPhdr64(p, e, ph);
  }

  /** The fields that a 32-bit program header can hold. */
  predicate Fits32(ph: ProgramHeader) {
    && ph.offset < TWO32 && ph.vaddr < TWO32 && ph.paddr < TWO32 && ph.filesz < TWO32 && ph.memsz < TWO32
    && ph.align < TWO32
  }

  /** Every 32-bit program header is read back from some 32 bytes. */
  lemma WriteProgramHeader32(ph: ProgramHeader, e: byte) returns (p: Buffer)
    requires Fits32(ph)
    ensures |p| == 32 && ReadProgramHeader32(p, e) == ph
  {
    Widths();
    hide Holds, Pow256, ReadProgramHeader32;
    p := Append([], ph.type_, 4, e);
    p := Append(p, ph.offset, 4, e);
    p := Append(p, ph.vaddr, 4, e);
    p := Append(p, ph.paddr, 4, e);
    p := Append(p, ph.filesz, 4, e);
    p := Append(p, ph.memsz, 4, e);
    p := Append(p, ph.flags, 4, e);
    p := Append(p, ph.align, 4, e);
    ReadsPhdr32(p, e, ph);
  }

  // ----- files of two program headers -----

  lemma IdentOf(p: Buffer, h: ElfHeader)
    requires |p| >= 64 || (|p| >= 52 && h.elfClass == ELF32)
    requires ReadHeader(p) == h
    ensures h.elfClass == p[4] && h.endian == p[5]
  {
  }

  /** A 64-bit header with two program headers right behind it and no sections. */
  function TwoSegments64(e: byte): ElfHeader {
    ElfHeader(ELF64, e, 1, 0, 0, 2, 62, 1, 0, 64, 0, 0, 64, 56, 2, 64, 0, 0)
  }

  lemma WriteTwoSegments64(a: ProgramHeader, b: ProgramHeader, e: byte) returns (data: Buffer)
    requires e != 0
    ensures |data| == 176 && HasValidMagic(data) && ReadHeader(data) == TwoSegments64(e)
    ensures ReadProgramHeader64(data[64..120], e) == a && ReadProgramHeader64(data[120..176], e) == b
  {
    hide ReadHeader, ReadProgramHeader64;
    var p := WriteHeader64(TwoSegments64(e));
    var x := WriteProgramHeader64(a, e);
    var y := WriteProgramHeader64(b, e);
    data := p + x + y;
    assert data[..4] == p[..4] && data[64..120] == x && data[120..176] == y;
    IdentOf(p, TwoSegments64(e));
    LongerHeader(p, data, TwoSegments64(e));
  }

  lemma TwoEntries64(data: Buffer, phs: seq<ProgramHeader>, e: byte)
    requires |data| == 176 && |phs| == 2
    requires TableAt(data, 64, 56, 56, p => DecodeProgramHeader(TwoSegments64(e), p), phs)
    ensures phs[0] == ReadProgramHeader64(data[64..120], e) && phs[1] == ReadProgramHeader64(data[120..176], e)
  {
    hide ReadProgramHeader64;
    var decode := p => DecodeProgramHeader(TwoSegments64(e), p);
    assert EntryAt(data, 64, 56, 56, decode, 0, phs[0]);
    assert EntryAt(data, 64, 56, 56, decode, 1, phs[1]);
  }

  /** Two program headers in a 64-bit file of either byte order that the parser accepts: every parse of it holds
      exactly them, and is valid if they are. */
  lemma TwoSegmentFile(a: ProgramHeader, b: ProgramHeader, e: byte) returns (data: Buffer)
    requires e != 0
    ensures |data| == 176 && HasValidMagic(data) && HeaderOk(ReadHeader(data), |data|)
    ensures forall elf :: ParsedFrom(data, elf) ==>
              && elf.programHeaders == [a, b] && elf.rawData == data
              && (elf.IsValid() <==> SegmentsOk([a, b], |data|))
  {
    data := WriteTwoSegments64(a, b, e);
    assert HeaderOk(TwoSegments64(e), 176);
    hide ReadHeader, ReadProgramHeader64, HeaderOk, TableAt, DecodedSections, SegmentsOk;
    forall elf | ParsedFrom(data, elf)
      ensures elf.programHeaders == [a, b] && elf.rawData == data && (elf.IsValid() <==> SegmentsOk([a, b], |data|))
    {
      TwoEntries64(data, elf.programHeaders, e);
    }
  }

  /** A 32-bit header with two program headers right behind it and no sections. */
  function TwoSegments32(e: byte): ElfHeader {
    ElfHeader(ELF32, e, 1, 0, 0, 2, 40, 1, 0, 52, 0, 0, 52, 32, 2, 40, 0, 0)
  }

  lemma WriteTwoSegments32(a: ProgramHeader, b: ProgramHeader, e: byte) returns (data: Buffer)
    requires e != 0 && Fits32(a) && Fits32(b)
    ensures |data| == 116 && HasValidMagic(data) && ReadHeader(data) == TwoSegments32(e)
    ensures ReadProgramHeader32(data[52..84], e) == a && ReadProgramHeader32(data[84..116], e) == b
  {
    hide ReadHeader, ReadProgramHeader32;
    var p := WriteHeader32(TwoSegments32(e));
    var x := WriteProgramHeader32(a, e);
    var y := WriteProgramHeader32(b, e);
    data := p + x + y;
    assert data[..4] == p[..4] && data[52..84] == x && data[84..116] == y;
    IdentOf(p, TwoSegments32(e));
    LongerHeader32(p, data, TwoSegments32(e));
  }

  lemma TwoEntries32(data: Buffer, phs: seq<ProgramHeader>, e: byte)
    requires |data| == 116 && |phs| == 2
    requires TableAt(data, 52, 32, 32, p => DecodeProgramHeader(TwoSegments32(e), p), phs)
    ensures phs[0] == ReadProgramHeader32(data[52..84], e) && phs[1] == ReadProgramHeader32(data[84..116], e)
  {
    hide ReadProgramHeader32;
    var decode := p => DecodeProgramHeader(TwoSegments32(e), p);
    assert EntryAt(data, 52, 32, 32, decode, 0, phs[0]);
    assert EntryAt(data, 52, 32, 32, decode, 1, phs[1]);
  }

  /** The same for 32-bit files and any two program headers whose fields fit. */
  lemma TwoSegmentFile32(a: ProgramHeader, b: ProgramHeader, e: byte) returns (data: Buffer)
    requires e != 0 && Fits32(a) && Fits32(b)
    ensures |data| == 116 && HasValidMagic(data) && HeaderOk(ReadHeader(data), |data|)
    ensures forall elf :: ParsedFrom(data, elf) ==>
              && elf.programHeaders == [a, b] && elf.rawData == data && elf.header.elfClass == ELF32
              && (elf.IsValid() <==> SegmentsOk([a, b], |data|))
  {
    data := WriteTwoSegments32(a, b, e);
    assert HeaderOk(TwoSegments32(e), 116);
    hide ReadHeader, ReadProgramHeader32, HeaderOk, TableAt, DecodedSections, SegmentsOk;
    forall elf | ParsedFrom(data, elf)
      ensures elf.programHeaders == [a, b] && elf.rawData == data && elf.header.elfClass == ELF32
      ensures elf.IsValid() <==> SegmentsOk([a, b], |data|)
    {
      TwoEntries32(data, elf.programHeaders, e);
    }
  }

  // ----- a table whose end wraps around -----

  /** A 64-bit header with one program header of 56 bytes announced at 2^64 - 56. */
  const WRAPPED := ElfHeader(2, 1, 1, 0, 0, 2, 62, 1, 0, 0xFFFF_FFFF_FFFF_FFC8, 0, 0, 64, 56, 1, 64, 0, 0)

  /** A file of 64 bytes with that header is accepted, and every parse of it is valid although it has lost
      its program header. */
  lemma WrappedTableLost() returns (data: Buffer)
    ensures |data| == 64 && HasValidMagic(data) && ReadHeader(data) == WRAPPED && HeaderOk(WRAPPED, |data|)
    ensures forall elf :: ParsedFrom(data, elf) ==> elf.programHeaders == [] && elf.valid
  {
    assert HeaderOk(WRAPPED, 64);
    data := WriteHeader64(WRAPPED);
    hide ReadHeader, HeaderOk, TableAt, DecodedSections;
    forall elf | ParsedFrom(data, elf) ensures elf.programHeaders == [] && elf.valid {
      HeadersLostIff(data, elf);
    }
  }
}
