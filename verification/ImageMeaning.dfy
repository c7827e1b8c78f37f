/** What a built memory image holds at every address, when that is the memory the program headers
    describe, and what happens when a segment has more file bytes than memory, which validation only
    warns about. */
module ImageMeaning {
  import opened Bytes
  import opened ElfParser
  import opened MemoryImage

  // ----- the memory the program headers describe -----

  /** The byte a loader puts at an address inside a segment: file content, then zeros. */
  function LoadedByte(ph: ProgramHeader, raw: Buffer, addr: int): byte {
    if InFile(ph, |raw|) && 0 <= addr - ph.vaddr < ph.filesz then raw[ph.offset + addr - ph.vaddr] else 0
  }

  predicate CoversAddr(ph: ProgramHeader, addr: int) {
    ph.vaddr <= addr < ph.vaddr + ph.memsz
  }

  ghost predicate Uncovered(phs: seq<ProgramHeader>, flags: uint32, addr: int) {
    forall ph :: ph in phs && IsRequired(ph, flags) ==> !CoversAddr(ph, addr)
  }

  /** The required segments span exactly the addresses from lowest to highest. */
  ghost predicate Spans(phs: seq<ProgramHeader>, flags: uint32, lowest: nat, highest: nat) {
    && (forall ph :: ph in phs && IsRequired(ph, flags) ==> lowest <= ph.vaddr && ph.vaddr + ph.memsz <= highest)
    && (exists ph :: ph in phs && IsRequired(ph, flags) && ph.vaddr == lowest)
    && (exists ph :: ph in phs && IsRequired(ph, flags) && ph.vaddr + ph.memsz == highest)
  }

  ghost predicate HoldsSegments(phs: seq<ProgramHeader>, raw: Buffer, flags: uint32, lowest: nat, bytes: Buffer) {
    forall ph, addr :: ph in phs && IsRequired(ph, flags) && CoversAddr(ph, addr) ==>
      InFile(ph, |raw|) && lowest <= addr < lowest + |bytes| && bytes[addr - lowest] == LoadedByte(ph, raw, addr)
  }

  ghost predicate ZeroGaps(phs: seq<ProgramHeader>, flags: uint32, lowest: nat, bytes: Buffer) {
    forall addr :: lowest <= addr < lowest + |bytes| && Uncovered(phs, flags, addr) ==> bytes[addr - lowest] == 0
  }

  /** The memory the program headers describe: the image spans the required segments exactly, holds
      each one's bytes and is zero in the gaps. */
  ghost predicate IsMemory(phs: seq<ProgramHeader>, raw: Buffer, flags: uint32, lowest: nat, highest: nat,
                           bytes: Buffer)
  {
    && Spans(phs, flags, lowest, highest)
    && |bytes| == highest - lowest
    && HoldsSegments(phs, raw, flags, lowest, bytes)
    && ZeroGaps(phs, flags, lowest, bytes)
  }

  // ----- segments of any size -----

  /** The segment's bytes end below 2^64. */
  predicate NoWrap(ph: ProgramHeader) {
    ph.vaddr + ph.memsz < TWO64 && ph.vaddr + ph.filesz < TWO64
  }

  ghost predicate RequiredNoWrap(phs: seq<ProgramHeader>, flags: uint32) {
    forall ph :: ph in phs && IsRequired(ph, flags) ==> NoWrap(ph)
  }

  /** The size of the segment's data: its file bytes, padded to its memory size. */
  function DataSize(ph: ProgramHeader): nat {
    if ph.filesz <= ph.memsz then ph.memsz else ph.filesz
  }

  predicate Fits(ph: ProgramHeader, highest: nat) {
    ph.vaddr + DataSize(ph) <= highest
  }

  predicate Reaches(ph: ProgramHeader, addr: int) {
    ph.vaddr <= addr < ph.vaddr + DataSize(ph)
  }

  /** Past the segment's memory but still inside its file bytes. */
  predicate Spills(ph: ProgramHeader, addr: int) {
    ph.vaddr + ph.memsz <= addr < ph.vaddr + ph.filesz
  }

  /** The last segment in address order that fits and whose data reaches the address, or -1. */
  function Top(order: seq<ProgramHeader>, highest: nat, addr: int): (t: int)
    ensures -1 <= t < |order|
    ensures t >= 0 ==> Fits(order[t], highest) && Reaches(order[t], addr)
    ensures forall j :: t < j < |order| ==> !(Fits(order[j], highest) && Reaches(order[j], addr))
  {
    if order == [] then -1
    else if Fits(order[|order| - 1], highest) && Reaches(order[|order| - 1], addr) then |order| - 1
    else Top(order[..|order| - 1], highest, addr)
  }

  /** A segment whose memory covers the address, or -1. */
  function Covering(order: seq<ProgramHeader>, addr: int): (t: int)
    ensures -1 <= t < |order|
    ensures t >= 0 ==> CoversAddr(order[t], addr)
    ensures t < 0 ==> forall j :: 0 <= j < |order| ==> !CoversAddr(order[j], addr)
  {
    if order == [] then -1
    else if CoversAddr(order[|order| - 1], addr) then |order| - 1
    else Covering(order[..|order| - 1], addr)
  }

  /** The place in the file a segment's byte comes from, or -1 for a zero. */
  function Source(ph: ProgramHeader, addr: int): int {
    if addr - ph.vaddr < ph.filesz then ph.offset + (addr - ph.vaddr) else -1
  }

  function ShownSource(order: seq<ProgramHeader>, highest: nat, addr: int): int {
    var t := Top(order, highest, addr);
    if t < 0 then -1 else Source(order[t], addr)
  }

  function WantedSource(order: seq<ProgramHeader>, addr: int): int {
    var t := Covering(order, addr);
    if t < 0 then -1 else Source(order[t], addr)
  }

  function SourceByte(raw: Buffer, s: int): byte {
    if 0 <= s < |raw| then raw[s] else 0
  }

  lemma SegmentBytes(ph: ProgramHeader, raw: Buffer, addr: int)
    requires InFile(ph, |raw|)
    ensures |SegmentOf(ph, raw).data| == DataSize(ph)
    ensures Reaches(ph, addr) ==> SegmentOf(ph, raw).data[addr - ph.vaddr] == SourceByte(raw, Source(ph, addr))
  {
  }

  lemma CopiedByte(buf: Buffer, ph: ProgramHeader, raw: Buffer, lowest: nat, addr: int)
    requires InFile(ph, |raw|) && lowest <= ph.vaddr && lowest <= addr < lowest + |buf|
    ensures Copied(buf, SegmentOf(ph, raw), lowest)[addr - lowest] ==
            if Fits(ph, lowest + |buf|) && Reaches(ph, addr) then SourceByte(raw, Source(ph, addr)) else buf[addr - lowest]
  {
    SegmentBytes(ph, raw, addr);
    var x := SegmentOf(ph, raw);
    assert x.vaddr == ph.vaddr;
    hide SegmentOf, SourceByte, Source;
  }

  /** Copying in address order shows at each address the last segment that fits and reaches it. */
  lemma {:induction false} OverlayByte(order: seq<ProgramHeader>, raw: Buffer, lowest: nat, total: nat, addr: int)
    requires forall i :: 0 <= i < |order| ==> InFile(order[i], |raw|) && lowest <= order[i].vaddr
    requires lowest <= addr < lowest + total
    ensures Overlay(SegmentsOf(order, raw), lowest, total)[addr - lowest]
         == SourceByte(raw, ShownSource(order, lowest + total, addr))
    decreases |order|
  {
    if order != [] {
      var front, last := order[..|order| - 1], order[|order| - 1];
      OverlayByte(front, raw, lowest, total, addr);
      assert order == front + [last];
      OverlayStep(front, last, raw, lowest, total);
      CopiedByte(Overlay(SegmentsOf(front, raw), lowest, total), last, raw, lowest, addr);
      hide SourceByte, SegmentOf, Copied;
    }
  }

  // ----- facts of a layout -----

  ghost predicate SpanIs(order: seq<ProgramHeader>, lowest: nat, highest: nat) {
    && (forall ph :: ph in order ==> lowest <= ph.vaddr && ph.vaddr + ph.memsz <= highest)
    && (exists ph :: ph in order && ph.vaddr == lowest)
    && (exists ph :: ph in order && ph.vaddr + ph.memsz == highest)
  }

  lemma LayoutHas(order: seq<ProgramHeader>, phs: seq<ProgramHeader>, flags: uint32, ph: ProgramHeader)
    requires IsLayout(order, phs, flags)
    ensures ph in order <==> ph in phs && IsRequired(ph, flags)
  {
    RequiredHas(phs, flags, ph);
    hide IsRequired, Required;
    assert ph in order <==> ph in multiset(order);
    assert ph in Required(phs, flags) <==> ph in multiset(Required(phs, flags));
  }

  lemma LayoutMembers(order: seq<ProgramHeader>, phs: seq<ProgramHeader>, flags: uint32)
    requires IsLayout(order, phs, flags)
    ensures forall ph :: ph in order <==> ph in phs && IsRequired(ph, flags)
  {
    hide IsRequired, IsLayout;
    forall ph ensures ph in order <==> ph in phs && IsRequired(ph, flags) {
      LayoutHas(order, phs, flags, ph);
    }
  }

  lemma LayoutInFile(order: seq<ProgramHeader>, phs: seq<ProgramHeader>, flags: uint32, dataSize: nat)
    requires IsLayout(order, phs, flags) && SegmentsOk(phs, dataSize)
    ensures forall ph :: ph in order ==> InFile(ph, dataSize)
  {
    LayoutMembers(order, phs, flags);
    hide IsLayout, InFile;
    forall ph | ph in order ensures InFile(ph, dataSize) {
      var i :| 0 <= i < |phs| && phs[i] == ph;
    }
  }

  lemma LayoutSpan(order: seq<ProgramHeader>, phs: seq<ProgramHeader>, flags: uint32, highest: nat)
    requires order != [] && IsLayout(order, phs, flags) && RequiredNoWrap(phs, flags) && IsHighestEnd(order, highest)
    ensures SpanIs(order, order[0].vaddr, highest)
  {
    LayoutMembers(order, phs, flags);
    hide IsRequired;
    assert order[0] in order;
    forall ph | ph in order
      ensures order[0].vaddr <= ph.vaddr && ph.EndVaddr() == ph.vaddr + ph.memsz
    {
      var i :| 0 <= i < |order| && order[i] == ph;
      Add64Exact(ph.vaddr, ph.memsz);
    }
  }

  lemma SpanOfLayout(order: seq<ProgramHeader>, phs: seq<ProgramHeader>, flags: uint32, lowest: nat, highest: nat)
    requires IsLayout(order, phs, flags) && SpanIs(order, lowest, highest)
    ensures Spans(phs, flags, lowest, highest)
  {
    LayoutMembers(order, phs, flags);
    hide IsRequired, IsLayout;
  }

  /** The overlap check leaves at most one required segment per address. */
  lemma NoSharedAddress(phs: seq<ProgramHeader>, dataSize: nat, flags: uint32, a: ProgramHeader, b: ProgramHeader,
                        addr: int)
    requires SegmentsOk(phs, dataSize) && RequiredNoWrap(phs, flags)
    requires a in phs && b in phs && IsRequired(a, flags) && IsRequired(b, flags)
    requires CoversAddr(a, addr) && CoversAddr(b, addr)
    ensures a == b
  {
    Add64Exact(a.vaddr, a.memsz);
    Add64Exact(b.vaddr, b.memsz);
    assert Overlap(a, b) && Overlap(b, a);
    var i :| 0 <= i < |phs| && phs[i] == a;
    var j :| 0 <= j < |phs| && phs[j] == b;
  }

  /** In a layout of a checked file only one segment covers an address. */
  ghost predicate OneCovers(order: seq<ProgramHeader>) {
    forall i, j, addr :: 0 <= i < |order| && 0 <= j < |order| && CoversAddr(order[i], addr) && CoversAddr(order[j], addr)
      ==> order[i] == order[j]
  }

  lemma LayoutCovers(order: seq<ProgramHeader>, phs: seq<ProgramHeader>, flags: uint32, dataSize: nat)
    requires IsLayout(order, phs, flags) && SegmentsOk(phs, dataSize) && RequiredNoWrap(phs, flags)
    ensures OneCovers(order)
  {
    LayoutMembers(order, phs, flags);
    hide IsLayout, IsRequired, SegmentsOk, RequiredNoWrap, CoversAddr;
    forall i, j, addr | 0 <= i < |order| && 0 <= j < |order| && CoversAddr(order[i], addr) && CoversAddr(order[j], addr)
      ensures order[i] == order[j]
    {
      assert order[i] in order && order[j] in order;
      NoSharedAddress(phs, dataSize, flags, order[i], order[j], addr);
    }
  }

  // ----- what the image holds -----

  /** A checked file without address wrap, in the order its segments were built, and its image. */
  ghost predicate Given(elf: ElfFile, flags: uint32, order: seq<ProgramHeader>, m: Image) {
    && IsImage(elf, flags, order, m)
    && SegmentsOk(elf.programHeaders, |elf.rawData|)
    && RequiredNoWrap(elf.programHeaders, flags)
  }

  ghost predicate Facts(order: seq<ProgramHeader>, raw: Buffer, low: nat, high: nat) {
    && order != [] && SpanIs(order, low, high) && OneCovers(order) && SortedByVaddr(order)
    && low <= high < TWO64
    && (forall ph :: ph in order ==> InFile(ph, |raw|) && NoWrap(ph))
  }

  lemma GivenFacts(elf: ElfFile, flags: uint32, order: seq<ProgramHeader>, m: Image)
    requires Given(elf, flags, order, m)
    ensures Facts(order, elf.rawData, m.lowestAddr, m.highestAddr)
  {
    hide IsHighestEnd, SegmentsOk, OneCovers, Overlay, Sum, CopiesDefined, SegmentsOf, IsRequired, Required;
    LayoutMembers(order, elf.programHeaders, flags);
    LayoutInFile(order, elf.programHeaders, flags, |elf.rawData|);
    LayoutSpan(order, elf.programHeaders, flags, m.highestAddr);
    LayoutCovers(order, elf.programHeaders, flags, |elf.rawData|);
    assert order[0] in order;
  }

  lemma CopiesAreDefined(order: seq<ProgramHeader>, raw: Buffer, low: nat, high: nat)
    requires Facts(order, raw, low, high)
    ensures CopiesDefined(order, raw, low)
  {
    hide OneCovers, SortedByVaddr, SpanIs, SegmentOf, InFile;
    forall ph | ph in order ensures ph.vaddr - low + |SegmentOf(ph, raw).data| < TWO64 {
      SegmentBytes(ph, raw, 0);
    }
  }

  lemma GivenBytes(elf: ElfFile, flags: uint32, order: seq<ProgramHeader>, m: Image)
    requires Given(elf, flags, order, m) && |order| > 1
    ensures CopiesDefined(order, elf.rawData, m.lowestAddr) ==>
            m.bytes == Overlay(SegmentsOf(order, elf.rawData), m.lowestAddr, Sub64(m.highestAddr, m.lowestAddr))
  {
    hide IsLayout, Sum, Overlay, SegmentsOf, CopiesDefined, IsHighestEnd, Sub64, SegmentsOk, RequiredNoWrap;
  }

  lemma BytesAreOverlay(elf: ElfFile, flags: uint32, order: seq<ProgramHeader>, m: Image)
    requires Given(elf, flags, order, m) && |order| > 1
    ensures m.lowestAddr <= m.highestAddr
    ensures m.bytes == Overlay(SegmentsOf(order, elf.rawData), m.lowestAddr, m.highestAddr - m.lowestAddr)
  {
    hide *;
    GivenBytes(elf, flags, order, m);
    GivenFacts(elf, flags, order, m);
    CopiesAreDefined(order, elf.rawData, m.lowestAddr, m.highestAddr);
    FactsBounds(order, elf.rawData, m.lowestAddr, m.highestAddr);
    Sub64Exact(m.highestAddr, m.lowestAddr);
  }

  lemma FactsBounds(order: seq<ProgramHeader>, raw: Buffer, low: nat, high: nat)
    requires Facts(order, raw, low, high)
    ensures low <= high < TWO64
  {
  }

  lemma FactsOrder(order: seq<ProgramHeader>, raw: Buffer, low: nat, high: nat)
    requires Facts(order, raw, low, high)
    ensures low <= high < TWO64
    ensures forall i :: 0 <= i < |order| ==> InFile(order[i], |raw|) && low <= order[i].vaddr
  {
    assert forall i :: 0 <= i < |order| ==> order[i] in order;
    hide OneCovers, SortedByVaddr, InFile;
  }

  /** The bytes from low to high hold, at each address, the file byte of the last segment in address order
      that fits and whose data reaches it, else zero. */
  ghost predicate Shows(order: seq<ProgramHeader>, raw: Buffer, low: nat, high: nat, bytes: Buffer) {
    && |bytes| == high - low
    && forall addr :: low <= addr < high ==>
         bytes[addr - low] == SourceByte(raw, ShownSource(order, high, addr))
  }

  /** For every checked file, whatever the segment sizes: an image of two or more segments spans exactly
      from the lowest to the highest address and holds at each address the byte of the last segment in
      address order that fits and whose data reaches it, else zero. */
  lemma ImageBytes(elf: ElfFile, flags: uint32, order: seq<ProgramHeader>, m: Image)
    requires Given(elf, flags, order, m) && |order| > 1
    ensures Shows(order, elf.rawData, m.lowestAddr, m.highestAddr, m.bytes)
  {
    hide *;
    BytesAreOverlay(elf, flags, order, m);
    GivenFacts(elf, flags, order, m);
    OverlayBytes(order, elf.rawData, m.lowestAddr, m.highestAddr);
  }

  lemma OverlayBytes(order: seq<ProgramHeader>, raw: Buffer, low: nat, high: nat)
    requires Facts(order, raw, low, high)
    ensures low <= high
    ensures Shows(order, raw, low, high, Overlay(SegmentsOf(order, raw), low, high - low))
  {
    hide Facts, Overlay, SegmentsOf, ShownSource, SourceByte, InFile;
    FactsOrder(order, raw, low, high);
    forall addr | low <= addr < high
      ensures Overlay(SegmentsOf(order, raw), low, high - low)[addr - low] == SourceByte(raw, ShownSource(order, high, addr))
    {
      OverlayByte(order, raw, low, high - low, addr);
    }
  }

  // ----- which segments are copied -----

  /** Every segment is copied if and only if its data ends no later than the highest address. */
  lemma SegmentCopiedIff(elf: ElfFile, flags: uint32, order: seq<ProgramHeader>, m: Image, i: nat)
    requires Given(elf, flags, order, m) && i < |order|
    ensures i < |m.segments| && m.lowestAddr <= m.segments[i].vaddr
    ensures m.segments[i].vaddr - m.lowestAddr + |m.segments[i].data| <= m.highestAddr - m.lowestAddr
       <==> order[i].vaddr + (if order[i].filesz <= order[i].memsz then order[i].memsz else order[i].filesz) <= m.highestAddr
  {
    GivenFacts(elf, flags, order, m);
    FactsOrder(order, elf.rawData, m.lowestAddr, m.highestAddr);
    SegmentBytes(order[i], elf.rawData, 0);
    hide IsLayout, IsRequired, Overlay, Sum, Facts, SegmentsOk, RequiredNoWrap, CopiesDefined, IsHighestEnd, InFile;
  }

  /** A segment that is copied shows at each address its data reaches, unless a later one hides it there. */
  lemma CopiedShows(order: seq<ProgramHeader>, high: nat, i: nat, addr: int)
    requires i < |order| && Fits(order[i], high) && Reaches(order[i], addr)
    ensures Top(order, high, addr) >= i
  {
  }

  function Drop<T>(s: seq<T>, i: nat): seq<T>
    requires i < |s|
  {
    s[..i] + s[i + 1..]
  }

  lemma DropFront<T>(s: seq<T>, i: nat)
    requires i < |s|
    ensures Drop(s, i) == if i == |s| - 1 then s[..|s| - 1] else Drop(s[..|s| - 1], i) + [s[|s| - 1]]
  {
  }

  /** A segment that is not copied leaves no trace: the image is that of the other segments. */
  lemma {:induction false} SkippedLeavesNoTrace(order: seq<ProgramHeader>, raw: Buffer, low: nat, total: nat, i: nat)
    requires i < |order| && InFile(order[i], |raw|) && !Fits(order[i], low + total)
    ensures Overlay(SegmentsOf(order, raw), low, total)
         == Overlay(SegmentsOf(Drop(order, i), raw), low, total)
    decreases |order|
  {
    var front, last := order[..|order| - 1], order[|order| - 1];
    assert order == front + [last];
    DropFront(order, i);
    OverlayStep(front, last, raw, low, total);
    hide SegmentsOf, Overlay, InFile, Drop;
    if i == |front| {
      NotCopied(Overlay(SegmentsOf(front, raw), low, total), last, raw, low);
    } else {
      SkippedLeavesNoTrace(front, raw, low, total, i);
      OverlayStep(Drop(front, i), last, raw, low, total);
    }
  }

  lemma NotCopied(buf: Buffer, ph: ProgramHeader, raw: Buffer, low: nat)
    requires InFile(ph, |raw|) && !Fits(ph, low + |buf|)
    ensures Copied(buf, SegmentOf(ph, raw), low) == buf
  {
    SegmentBytes(ph, raw, 0);
  }

  // ----- when the image is the memory -----

  ghost predicate Right(order: seq<ProgramHeader>, raw: Buffer, low: nat, high: nat, bytes: Buffer) {
    && |bytes| == high - low
    && forall addr :: low <= addr < high ==> bytes[addr - low] == SourceByte(raw, WantedSource(order, addr))
  }

  lemma WantedByte(order: seq<ProgramHeader>, raw: Buffer, low: nat, high: nat, ph: ProgramHeader, addr: int)
    requires Facts(order, raw, low, high) && ph in order && CoversAddr(ph, addr)
    ensures low <= addr < high && InFile(ph, |raw|)
    ensures SourceByte(raw, WantedSource(order, addr)) == LoadedByte(ph, raw, addr)
  {
    hide SortedByVaddr;
    var j :| 0 <= j < |order| && order[j] == ph;
    var c := Covering(order, addr);
    assert order[c] == ph;
    hide OneCovers, SpanIs;
  }

  lemma MemoryIsRight(order: seq<ProgramHeader>, phs: seq<ProgramHeader>, raw: Buffer, flags: uint32, low: nat,
                      high: nat, bytes: Buffer)
    requires Facts(order, raw, low, high) && forall ph :: ph in order <==> ph in phs && IsRequired(ph, flags)
    requires IsMemory(phs, raw, flags, low, high, bytes)
    ensures Right(order, raw, low, high, bytes)
  {
    hide Facts, IsRequired, Spans, LoadedByte, SourceByte;
    forall addr | low <= addr < high
      ensures bytes[addr - low] == SourceByte(raw, WantedSource(order, addr))
    {
      var c := Covering(order, addr);
      if c >= 0 {
        assert order[c] in order;
        WantedByte(order, raw, low, high, order[c], addr);
      } else {
        assert Uncovered(phs, flags, addr);
        assert SourceByte(raw, -1) == 0 by { NoSource(raw); }
      }
    }
  }

  lemma NoSource(raw: Buffer)
    ensures SourceByte(raw, -1) == 0
  {
  }

  lemma RightIsMemory(order: seq<ProgramHeader>, phs: seq<ProgramHeader>, raw: Buffer, flags: uint32, low: nat,
                      high: nat, bytes: Buffer)
    requires Facts(order, raw, low, high) && IsLayout(order, phs, flags)
    requires Right(order, raw, low, high, bytes)
    ensures IsMemory(phs, raw, flags, low, high, bytes)
  {
    assert SpanIs(order, low, high) && low <= high;
    SpanOfLayout(order, phs, flags, low, high);
    LayoutMembers(order, phs, flags);
    hide Facts, IsRequired, Spans, LoadedByte, SourceByte, IsLayout, CoversAddr, InFile;
    forall ph, addr | ph in phs && IsRequired(ph, flags) && CoversAddr(ph, addr)
      ensures InFile(ph, |raw|) && low <= addr < low + |bytes| && bytes[addr - low] == LoadedByte(ph, raw, addr)
    {
      WantedByte(order, raw, low, high, ph, addr);
    }
    forall addr | low <= addr < low + |bytes| && Uncovered(phs, flags, addr)
      ensures bytes[addr - low] == 0
    {
      forall i | 0 <= i < |order| ensures !CoversAddr(order[i], addr) {
        assert order[i] in order;
      }
      assert WantedSource(order, addr) == -1;
      NoSource(raw);
    }
  }

  ghost predicate SameBytes(order: seq<ProgramHeader>, raw: Buffer, low: nat, high: nat) {
    forall addr :: low <= addr < high ==>
      SourceByte(raw, ShownSource(order, high, addr)) == SourceByte(raw, WantedSource(order, addr))
  }

  /** Two or more segments: the image is the memory if and only if, at every address of the span, the last
      fitting segment that reaches it and the segment that covers it hold the same file byte (none: zero). */
  lemma ImageIsMemoryIff(elf: ElfFile, flags: uint32, order: seq<ProgramHeader>, m: Image)
    requires Given(elf, flags, order, m) && |order| > 1
    ensures IsMemory(elf.programHeaders, elf.rawData, flags, m.lowestAddr, m.highestAddr, m.bytes)
       <==> SameBytes(order, elf.rawData, m.lowestAddr, m.highestAddr)
  {
    var phs, raw, low, high := elf.programHeaders, elf.rawData, m.lowestAddr, m.highestAddr;
    assert IsLayout(order, phs, flags);
    hide *;
    ImageBytes(elf, flags, order, m);
    GivenFacts(elf, flags, order, m);
    ShownRightIff(order, raw, low, high, m.bytes);
    MemoryIffRight(order, phs, raw, flags, low, high, m.bytes);
  }

  lemma ShownRightIff(order: seq<ProgramHeader>, raw: Buffer, low: nat, high: nat, bytes: Buffer)
    requires Shows(order, raw, low, high, bytes)
    ensures Right(order, raw, low, high, bytes) <==> SameBytes(order, raw, low, high)
  {
    hide SourceByte, ShownSource, WantedSource;
    if Right(order, raw, low, high, bytes) {
      forall addr | low <= addr < high
        ensures SourceByte(raw, ShownSource(order, high, addr)) == SourceByte(raw, WantedSource(order, addr))
      {
        assert bytes[addr - low] == SourceByte(raw, WantedSource(order, addr));
      }
    }
    if SameBytes(order, raw, low, high) {
      forall addr | low <= addr < high
        ensures bytes[addr - low] == SourceByte(raw, WantedSource(order, addr))
      {
        assert bytes[addr - low] == SourceByte(raw, ShownSource(order, high, addr));
      }
    }
  }

  lemma MemoryIffRight(order: seq<ProgramHeader>, phs: seq<ProgramHeader>, raw: Buffer, flags: uint32, low: nat,
                       high: nat, bytes: Buffer)
    requires Facts(order, raw, low, high) && IsLayout(order, phs, flags)
    ensures IsMemory(phs, raw, flags, low, high, bytes) <==> Right(order, raw, low, high, bytes)
  {
    hide *;
    LayoutMembers(order, phs, flags);
    if IsMemory(phs, raw, flags, low, high, bytes) {
      MemoryIsRight(order, phs, raw, flags, low, high, bytes);
    }
    if Right(order, raw, low, high, bytes) {
      RightIsMemory(order, phs, raw, flags, low, high, bytes);
    }
  }

  /** One segment: the image is the memory, and has its length, if and only if filesz <= memsz. */
  lemma SingleSegmentIff(elf: ElfFile, flags: uint32, order: seq<ProgramHeader>, m: Image)
    requires Given(elf, flags, order, m) && |order| == 1
    ensures |m.bytes| == m.highestAddr - m.lowestAddr <==> order[0].filesz <= order[0].memsz
    ensures IsMemory(elf.programHeaders, elf.rawData, flags, m.lowestAddr, m.highestAddr, m.bytes)
       <==> order[0].filesz <= order[0].memsz
  {
    var phs, raw, low, high := elf.programHeaders, elf.rawData, m.lowestAddr, m.highestAddr;
    var x := order[0];
    assert IsLayout(order, phs, flags) && m.bytes == SegmentOf(x, raw).data && low == x.vaddr;
    GivenFacts(elf, flags, order, m);
    hide *;
    assert order == [x];
    SingleFacts(x, raw, low, high);
    SegmentBytes(x, raw, 0);
    SingleIsRight(x, raw);
    MemoryIffRight(order, phs, raw, flags, low, high, m.bytes);
  }

  lemma SingleFacts(x: ProgramHeader, raw: Buffer, low: nat, high: nat)
    requires Facts([x], raw, low, high)
    ensures high == x.vaddr + x.memsz && low == x.vaddr && InFile(x, |raw|)
  {
    hide OneCovers, SortedByVaddr, InFile;
    assert x in [x];
  }

  lemma SingleIsRight(x: ProgramHeader, raw: Buffer)
    requires InFile(x, |raw|)
    ensures DataSize(x) == x.memsz <==> x.filesz <= x.memsz
    ensures Right([x], raw, x.vaddr, x.vaddr + x.memsz, SegmentOf(x, raw).data) <==> x.filesz <= x.memsz
  {
    SegmentBytes(x, raw, 0);
    hide SegmentOf, InFile;
    if x.filesz <= x.memsz {
      forall addr | x.vaddr <= addr < x.vaddr + x.memsz
        ensures SegmentOf(x, raw).data[addr - x.vaddr] == SourceByte(raw, WantedSource([x], addr))
      {
        SegmentBytes(x, raw, addr);
        assert CoversAddr([x][0], addr);
        assert Covering([x], addr) == 0;
      }
    }
  }

  // ----- conditions on the headers alone -----

  /** Every address past a segment's memory, up to the end of its file bytes, is covered by a required
      segment of larger address, which is copied later. */
  ghost predicate SpillsHidden(phs: seq<ProgramHeader>, flags: uint32) {
    forall x, addr :: x in phs && IsRequired(x, flags) && Spills(x, addr) ==>
      exists y :: y in phs && IsRequired(y, flags) && x.vaddr < y.vaddr && CoversAddr(y, addr)
  }

  lemma SmallSegmentsSpillNothing(phs: seq<ProgramHeader>, flags: uint32)
    requires forall ph :: ph in phs && IsRequired(ph, flags) ==> ph.filesz <= ph.memsz
    ensures SpillsHidden(phs, flags)
  {
    hide IsRequired;
  }

  ghost predicate HiddenIn(order: seq<ProgramHeader>) {
    forall x, addr :: x in order && Spills(x, addr) ==> exists y :: y in order && x.vaddr < y.vaddr && CoversAddr(y, addr)
  }

  ghost predicate SourcesAgree(order: seq<ProgramHeader>, low: nat, high: nat) {
    forall addr :: low <= addr < high ==> ShownSource(order, high, addr) == WantedSource(order, addr)
  }

  lemma HiddenFits(order: seq<ProgramHeader>, raw: Buffer, low: nat, high: nat, x: ProgramHeader)
    requires Facts(order, raw, low, high) && HiddenIn(order) && x in order
    ensures Fits(x, high)
  {
    hide OneCovers, SortedByVaddr, InFile;
    if x.filesz > x.memsz {
      assert Spills(x, x.vaddr + x.filesz - 1);
    }
  }

  /** Where a segment's data reaches, it or a later segment has memory. */
  lemma LaterCovers(order: seq<ProgramHeader>, j: nat, addr: int) returns (k: nat)
    requires SortedByVaddr(order) && HiddenIn(order) && j < |order| && Reaches(order[j], addr)
    ensures j <= k < |order| && CoversAddr(order[k], addr)
  {
    k := j;
    if !CoversAddr(order[j], addr) {
      assert order[j] in order && Spills(order[j], addr);
      var y :| y in order && order[j].vaddr < y.vaddr && CoversAddr(y, addr);
      k :| 0 <= k < |order| && order[k] == y;
    }
  }

  lemma HiddenAgreeAt(order: seq<ProgramHeader>, raw: Buffer, low: nat, high: nat, addr: int)
    requires Facts(order, raw, low, high) && HiddenIn(order)
    ensures ShownSource(order, high, addr) == WantedSource(order, addr)
  {
    var t, c := Top(order, high, addr), Covering(order, addr);
    forall j | 0 <= j < |order| ensures Fits(order[j], high) {
      assert order[j] in order;
      HiddenFits(order, raw, low, high, order[j]);
    }
    hide InFile, SpanIs;
    if t >= 0 {
      var k := LaterCovers(order, t, addr);
      assert Reaches(order[k], addr);
      assert k == t && c >= 0 && order[c] == order[t];
    }
  }

  lemma HiddenAgree(order: seq<ProgramHeader>, raw: Buffer, low: nat, high: nat)
    requires Facts(order, raw, low, high) && HiddenIn(order)
    ensures SourcesAgree(order, low, high)
  {
    hide Facts, HiddenIn, ShownSource, WantedSource;
    forall addr | low <= addr < high ensures ShownSource(order, high, addr) == WantedSource(order, addr) {
      HiddenAgreeAt(order, raw, low, high, addr);
    }
  }

  lemma AgreeingSourcesSameBytes(order: seq<ProgramHeader>, raw: Buffer, low: nat, high: nat)
    requires SourcesAgree(order, low, high)
    ensures SameBytes(order, raw, low, high)
  {
    hide ShownSource, WantedSource, SourceByte;
  }

  lemma HiddenInLayout(order: seq<ProgramHeader>, phs: seq<ProgramHeader>, flags: uint32)
    requires IsLayout(order, phs, flags) && SpillsHidden(phs, flags)
    ensures HiddenIn(order)
  {
    LayoutMembers(order, phs, flags);
    hide IsLayout, IsRequired, Spills, CoversAddr;
    forall x, addr | x in order && Spills(x, addr)
      ensures exists y :: y in order && x.vaddr < y.vaddr && CoversAddr(y, addr)
    {
      var y :| y in phs && IsRequired(y, flags) && x.vaddr < y.vaddr && CoversAddr(y, addr);
      assert y in order;
    }
  }

  /** File data inside the file, no overlap, no address wrap, and spilled bytes hidden; segments with
      filesz <= memsz spill nothing. */
  ghost predicate Loadable(phs: seq<ProgramHeader>, dataSize: nat, flags: uint32) {
    SegmentsOk(phs, dataSize) && RequiredNoWrap(phs, flags) && SpillsHidden(phs, flags)
  }

  lemma SingleHidden(x: ProgramHeader)
    requires HiddenIn([x])
    ensures x.filesz <= x.memsz
  {
    assert x.filesz > x.memsz ==> Spills(x, x.vaddr + x.memsz);
  }

  lemma ImageIsMemoryIn(elf: ElfFile, flags: uint32, order: seq<ProgramHeader>, m: Image)
    requires IsImage(elf, flags, order, m) && Loadable(elf.programHeaders, |elf.rawData|, flags)
    ensures IsMemory(elf.programHeaders, elf.rawData, flags, m.lowestAddr, m.highestAddr, m.bytes)
  {
    assert Given(elf, flags, order, m);
    HiddenInLayout(order, elf.programHeaders, flags);
    assert order != [];
    hide *;
    if |order| == 1 {
      assert order == [order[0]];
      SingleHidden(order[0]);
      SingleSegmentIff(elf, flags, order, m);
    } else {
      GivenFacts(elf, flags, order, m);
      HiddenAgree(order, elf.rawData, m.lowestAddr, m.highestAddr);
      AgreeingSourcesSameBytes(order, elf.rawData, m.lowestAddr, m.highestAddr);
      ImageIsMemoryIff(elf, flags, order, m);
    }
  }

  /** The built image of a loadable file is the memory its program headers describe. */
  lemma ImageIsMemory(elf: ElfFile, flags: uint32, m: Image)
    requires IsBuilt(elf, flags, m) && Loadable(elf.programHeaders, |elf.rawData|, flags)
    ensures IsMemory(elf.programHeaders, elf.rawData, flags, m.lowestAddr, m.highestAddr, m.bytes)
  {
    hide IsImage, Loadable, IsMemory;
    var order :| IsImage(elf, flags, order, m);
    ImageIsMemoryIn(elf, flags, order, m);
  }

  // ----- for which headers the image is right whatever the file holds -----

  ghost predicate AlwaysMemory(elf: ElfFile, flags: uint32, order: seq<ProgramHeader>) {
    forall raw, m :: |raw| == |elf.rawData| && IsImage(elf.(rawData := raw), flags, order, m) ==>
      IsMemory(elf.programHeaders, raw, flags, m.lowestAddr, m.highestAddr, m.bytes)
  }

  /** A file of zeros with a single one. */
  function Probe(n: nat, s: nat): (raw: Buffer)
    requires s < n
    ensures |raw| == n && forall i :: 0 <= i < n ==> raw[i] == if i == s then 1 else 0
  {
    seq(n, i => if i == s then 1 else 0)
  }

  lemma ProbeSeparates(n: nat, a: int, b: int) returns (raw: Buffer)
    requires a != b && -1 <= a < n && -1 <= b < n
    ensures |raw| == n && SourceByte(raw, a) != SourceByte(raw, b)
  {
    raw := Probe(n, if a >= 0 then a else b);
  }

  lemma SourcesInFile(order: seq<ProgramHeader>, raw: Buffer, low: nat, high: nat, addr: int)
    requires Facts(order, raw, low, high) && low <= addr < high
    ensures -1 <= ShownSource(order, high, addr) < |raw| && -1 <= WantedSource(order, addr) < |raw|
  {
    assert forall i :: 0 <= i < |order| ==> order[i] in order;
    hide OneCovers, SortedByVaddr, SpanIs;
  }

  lemma SameSpan(elf: ElfFile, flags: uint32, order: seq<ProgramHeader>, m: Image, raw: Buffer, n: Image)
    requires IsImage(elf, flags, order, m) && IsImage(elf.(rawData := raw), flags, order, n)
    ensures n.lowestAddr == m.lowestAddr && n.highestAddr == m.highestAddr
  {
    hide IsLayout, Sum, Overlay, CopiesDefined, SegmentsOf;
  }

  /** The image of the same headers over another file content. */
  lemma ImageOver(elf: ElfFile, flags: uint32, order: seq<ProgramHeader>, m: Image, raw: Buffer) returns (n: Image)
    requires IsImage(elf, flags, order, m) && |order| > 1
    ensures IsImage(elf.(rawData := raw), flags, order, n)
  {
    var segs := SegmentsOf(order, raw);
    n := m.(segments := segs, bytes := Overlay(segs, m.lowestAddr, Sub64(m.highestAddr, m.lowestAddr)));
    hide IsLayout, Sum, Overlay, CopiesDefined, SegmentsOf, IsHighestEnd;
  }

  lemma DisagreementShows(elf: ElfFile, flags: uint32, order: seq<ProgramHeader>, m: Image, addr: int)
    requires Given(elf, flags, order, m) && |order| > 1 && m.lowestAddr <= addr < m.highestAddr
    requires ShownSource(order, m.highestAddr, addr) != WantedSource(order, addr)
    ensures !AlwaysMemory(elf, flags, order)
  {
    assert IsImage(elf, flags, order, m);
    GivenFacts(elf, flags, order, m);
    SourcesInFile(order, elf.rawData, m.lowestAddr, m.highestAddr, addr);
    var raw := ProbeSeparates(|elf.rawData|, ShownSource(order, m.highestAddr, addr), WantedSource(order, addr));
    var n := ImageOver(elf, flags, order, m, raw);
    SameSpan(elf, flags, order, m, raw, n);
    assert Given(elf.(rawData := raw), flags, order, n);
    assert !SameBytes(order, raw, m.lowestAddr, m.highestAddr);
    hide *;
    ImageIsMemoryIff(elf.(rawData := raw), flags, order, n);
    NotAlways(elf, flags, order, raw, n);
  }

  lemma NotAlways(elf: ElfFile, flags: uint32, order: seq<ProgramHeader>, raw: Buffer, n: Image)
    requires |raw| == |elf.rawData| && IsImage(elf.(rawData := raw), flags, order, n)
    requires !IsMemory(elf.programHeaders, raw, flags, n.lowestAddr, n.highestAddr, n.bytes)
    ensures !AlwaysMemory(elf, flags, order)
  {
    hide IsImage, IsMemory;
  }

  /** Two or more segments: the image is the memory whatever the file holds if and only if, at every
      address, the segment shown and the segment covering it take the byte from the same place in the
      file. This is a condition on the program headers alone. */
  lemma AlwaysMemoryIff(elf: ElfFile, flags: uint32, order: seq<ProgramHeader>, m: Image)
    requires Given(elf, flags, order, m) && |order| > 1
    ensures AlwaysMemory(elf, flags, order) <==> SourcesAgree(order, m.lowestAddr, m.highestAddr)
  {
    if SourcesAgree(order, m.lowestAddr, m.highestAddr) {
      hide IsImage, IsMemory, SourcesAgree;
      forall raw, n | |raw| == |elf.rawData| && IsImage(elf.(rawData := raw), flags, order, n)
        ensures IsMemory(elf.programHeaders, raw, flags, n.lowestAddr, n.highestAddr, n.bytes)
      {
        SameSpan(elf, flags, order, m, raw, n);
        AgreeingSourcesSameBytes(order, raw, m.lowestAddr, m.highestAddr);
        ImageIsMemoryIff(elf.(rawData := raw), flags, order, n);
      }
    } else {
      hide Given, AlwaysMemory, ShownSource, WantedSource;
      var addr :| m.lowestAddr <= addr < m.highestAddr &&
        ShownSource(order, m.highestAddr, addr) != WantedSource(order, addr);
      DisagreementShows(elf, flags, order, m, addr);
    }
  }

  lemma AgreeImpliesHiddenAt(order: seq<ProgramHeader>, raw: Buffer, low: nat, high: nat, x: ProgramHeader, addr: int)
    requires Facts(order, raw, low, high) && SourcesAgree(order, low, high)
    requires x in order && Fits(x, high) && Spills(x, addr) && x.memsz > 0
    ensures exists y :: y in order && x.vaddr < y.vaddr && CoversAddr(y, addr)
  {
    var i :| 0 <= i < |order| && order[i] == x;
    var t, c := Top(order, high, addr), Covering(order, addr);
    assert low <= addr < high;
    assert ShownSource(order, high, addr) == WantedSource(order, addr);
    assert t >= i;
    hide InFile, SpanIs, SourcesAgree;
    assert CoversAddr(order[t], addr) || Source(order[t], addr) >= 0;
    assert c >= 0;
    assert order[c] in order;
    LiesAbove(order, i, c, addr);
  }

  lemma LiesAbove(order: seq<ProgramHeader>, i: nat, c: nat, addr: int)
    requires OneCovers(order) && i < |order| && c < |order| && CoversAddr(order[c], addr)
    requires order[i].memsz > 0 && order[i].vaddr <= addr && !CoversAddr(order[i], addr)
    ensures order[i].vaddr < order[c].vaddr
  {
    assert CoversAddr(order[i], order[i].vaddr);
    assert CoversAddr(order[c], order[i].vaddr) <==> order[c].vaddr <= order[i].vaddr;
  }

  lemma HiddenInIff(order: seq<ProgramHeader>, raw: Buffer, low: nat, high: nat)
    requires Facts(order, raw, low, high) && forall ph :: ph in order ==> ph.memsz > 0
    ensures HiddenIn(order) <==> SourcesAgree(order, low, high) && forall ph :: ph in order ==> Fits(ph, high)
  {
    hide Facts, SourcesAgree, Fits, CoversAddr, Spills;
    if HiddenIn(order) {
      HiddenAgree(order, raw, low, high);
      forall ph | ph in order ensures Fits(ph, high) {
        HiddenFits(order, raw, low, high, ph);
      }
    }
    if SourcesAgree(order, low, high) && forall ph :: ph in order ==> Fits(ph, high) {
      forall x, addr | x in order && Spills(x, addr)
        ensures exists y :: y in order && x.vaddr < y.vaddr && CoversAddr(y, addr)
      {
        AgreeImpliesHiddenAt(order, raw, low, high, x, addr);
      }
    }
  }

  lemma HiddenInIsSpillsHidden(order: seq<ProgramHeader>, phs: seq<ProgramHeader>, flags: uint32)
    requires IsLayout(order, phs, flags)
    ensures HiddenIn(order) <==> SpillsHidden(phs, flags)
  {
    LayoutMembers(order, phs, flags);
    if SpillsHidden(phs, flags) {
      HiddenInLayout(order, phs, flags);
    }
    hide IsLayout, IsRequired, Spills, CoversAddr;
    if HiddenIn(order) {
      forall x, addr | x in phs && IsRequired(x, flags) && Spills(x, addr)
        ensures exists y :: y in phs && IsRequired(y, flags) && x.vaddr < y.vaddr && CoversAddr(y, addr)
      {
        var y :| y in order && x.vaddr < y.vaddr && CoversAddr(y, addr);
      }
    }
  }

  /** Two or more segments that all have memory: every segment is copied and the image is the memory
      whatever the file holds, if and only if spilled bytes are hidden. */
  lemma SpillsHiddenIff(elf: ElfFile, flags: uint32, order: seq<ProgramHeader>, m: Image)
    requires Given(elf, flags, order, m) && |order| > 1
    requires forall ph :: ph in order ==> ph.memsz > 0
    ensures SpillsHidden(elf.programHeaders, flags)
       <==> AlwaysMemory(elf, flags, order) && forall ph :: ph in order ==> Fits(ph, m.highestAddr)
  {
    assert IsLayout(order, elf.programHeaders, flags);
    hide *;
    GivenFacts(elf, flags, order, m);
    AlwaysMemoryIff(elf, flags, order, m);
    HiddenInIff(order, elf.rawData, m.lowestAddr, m.highestAddr);
    HiddenInIsSpillsHidden(order, elf.programHeaders, flags);
  }

  // ----- independence of the header order -----

  /** A memory is determined by which segments are required, whatever their order. */
  lemma MemoryIsUnique(ps: seq<ProgramHeader>, qs: seq<ProgramHeader>, raw: Buffer, flags: uint32, low1: nat,
                       high1: nat, bytes1: Buffer, low2: nat, high2: nat, bytes2: Buffer)
    requires multiset(ps) == multiset(qs)
    requires IsMemory(ps, raw, flags, low1, high1, bytes1)
    requires IsMemory(qs, raw, flags, low2, high2, bytes2)
    ensures low1 == low2 && high1 == high2 && bytes1 == bytes2
  {
    SameMembers(ps, qs);
    SpanIsUnique(ps, qs, flags, low1, high1, low2, high2);
    hide IsRequired;
    forall k | 0 <= k < |bytes1|
      ensures bytes1[k] == bytes2[k]
    {
      var addr := low1 + k;
      assert k == addr - low1;
      if !Uncovered(ps, flags, addr) {
        var ph :| ph in ps && IsRequired(ph, flags) && CoversAddr(ph, addr);
      } else {
        assert Uncovered(qs, flags, addr);
      }
    }
  }

  lemma SameMembers<T>(ps: seq<T>, qs: seq<T>)
    requires multiset(ps) == multiset(qs)
    ensures forall x :: x in ps <==> x in qs
  {
    assert forall x :: x in ps <==> x in multiset(ps);
    assert forall x :: x in qs <==> x in multiset(qs);
  }

  lemma SpanIsUnique(ps: seq<ProgramHeader>, qs: seq<ProgramHeader>, flags: uint32, low1: nat, high1: nat, low2: nat,
                     high2: nat)
    requires forall x :: x in ps <==> x in qs
    requires Spans(ps, flags, low1, high1) && Spans(qs, flags, low2, high2)
    ensures low1 == low2 && high1 == high2
  {
    hide IsRequired;
  }

  lemma SameTotals(a: ElfFile, b: ElfFile, flags: uint32, p: seq<ProgramHeader>, q: seq<ProgramHeader>)
    requires multiset(a.programHeaders) == multiset(b.programHeaders)
    requires IsLayout(p, a.programHeaders, flags) && IsLayout(q, b.programHeaders, flags)
    ensures Sum(p, FILE_SIZE) == Sum(q, FILE_SIZE) && Sum(p, MEM_SIZE) == Sum(q, MEM_SIZE)
  {
    hide Sum, Required, SortedByVaddr;
    RequiredPermuted(a.programHeaders, b.programHeaders, flags);
    SumPermuted(p, q, FILE_SIZE);
    SumPermuted(p, q, MEM_SIZE);
  }

  /** Permuting the program headers of a loadable file changes neither the image nor its span
      nor its sizes. */
  lemma OrderIndependent(a: ElfFile, b: ElfFile, flags: uint32, m: Image, n: Image)
    requires a.rawData == b.rawData && multiset(a.programHeaders) == multiset(b.programHeaders)
    requires Loadable(a.programHeaders, |a.rawData|, flags) && Loadable(b.programHeaders, |b.rawData|, flags)
    requires IsBuilt(a, flags, m) && IsBuilt(b, flags, n)
    ensures m.lowestAddr == n.lowestAddr && m.highestAddr == n.highestAddr && m.bytes == n.bytes
    ensures m.totalFileSize == n.totalFileSize && m.totalMemSize == n.totalMemSize
  {
    ImageIsMemory(a, flags, m);
    ImageIsMemory(b, flags, n);
    var p :| IsImage(a, flags, p, m);
    var q :| IsImage(b, flags, q, n);
    hide IsMemory, Loadable, Overlay, Sum, SegmentsOf, CopiesDefined, IsHighestEnd, IsLayout;
    SameTotals(a, b, flags, p, q);
    MemoryIsUnique(a.programHeaders, b.programHeaders, a.rawData, flags, m.lowestAddr, m.highestAddr, m.bytes,
                   n.lowestAddr, n.highestAddr, n.bytes);
  }

  /** From file bytes to memory: what a valid parse yields, the builder lays out as the program
      headers of the file say. */
  lemma ParsedImageIsMemory(data: Buffer, elf: ElfFile, flags: uint32, m: Image)
    requires ParsedFrom(data, elf) && elf.valid && IsBuilt(elf, flags, m)
    requires RequiredNoWrap(elf.programHeaders, flags) && SpillsHidden(elf.programHeaders, flags)
    ensures IsMemory(elf.programHeaders, data, flags, m.lowestAddr, m.highestAddr, m.bytes)
  {
    hide IsBuilt, IsMemory, SegmentsOk, RequiredNoWrap, SpillsHidden;
    ImageIsMemory(elf, flags, m);
  }
}
