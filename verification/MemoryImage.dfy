/** MemoryImageBuilder: collecting, sorting and flattening the PT_LOAD segments. Models the
    default configuration (segments sorted by virtual address). */
module MemoryImage {
  import opened Bytes
  import opened ElfParser

  datatype SegmentData = SegmentData(
    vaddr: uint64, paddr: uint64, filesz: uint64, memsz: uint64, flags: uint32, data: Buffer)

  datatype Image = Image(
    lowestAddr: uint64, highestAddr: uint64, totalFileSize: uint64, totalMemSize: uint64,
    entryPoint: uint64, bytes: Buffer, segments: seq<SegmentData>)

  datatype BuildResult = Built(image: Image) | NotBuilt

  predicate IsRequired(ph: ProgramHeader, requiredFlags: uint32) {
    ph.IsLoadable() && (requiredFlags != 0 ==> HasBits(Bits(ph.flags), Bits(requiredFlags)))
  }

  function Bits(x: uint32): bv32 {
    x as bv32
  }

  /** Every bit of m is set in x. */
  predicate HasBits(x: bv32, m: bv32) {
    x & m == m
  }

  lemma BitsKept(a: bv32, b: bv32, m: bv32)
    requires HasBits(a, b) && HasBits(b, m)
    ensures HasBits(a, m)
  {
  }

  lemma OwnBits(a: bv32)
    ensures HasBits(a, a) && HasBits(a, 0)
  {
  }

  lemma NoBits()
    ensures Bits(0) == 0
  {
  }

  /** A loadable header in which no required flag bit is missing; a bit or a set of bits m is required if it is
      in the flags asked for. */
  lemma RequiredIff(ph: ProgramHeader, flags: uint32)
    ensures IsRequired(ph, flags) <==>
            ph.type_ == 1 && forall m :: HasBits(Bits(flags), m) ==> HasBits(Bits(ph.flags), m)
  {
    hide HasBits, Bits;
    NoBits();
    var a, b := Bits(ph.flags), Bits(flags);
    forall m | HasBits(a, b) && HasBits(b, m) ensures HasBits(a, m) {
      BitsKept(a, b, m);
    }
    OwnBits(a);
    OwnBits(b);
  }

  function Zeros(n: nat): (z: Buffer)
    ensures |z| == n && forall i :: 0 <= i < n ==> z[i] == 0
  {
    seq(n, _ => 0)
  }

  /** The file bytes of a segment, padded with zeros to its memory size. */
  function SegmentOf(ph: ProgramHeader, raw: Buffer): SegmentData {
    var file := if ph.filesz > 0 && InFile(ph, |raw|) then raw[ph.offset..ph.offset + ph.filesz] else [];
    var data := if |file| < ph.memsz then file + Zeros(ph.memsz - |file|) else file;
    SegmentData(ph.vaddr, ph.paddr, ph.filesz, ph.memsz, ph.flags, data)
  }

  function SegmentsOf(order: seq<ProgramHeader>, raw: Buffer): (segs: seq<SegmentData>)
    ensures |segs| == |order| && forall i :: 0 <= i < |order| ==> segs[i] == SegmentOf(order[i], raw)
  {
    seq(|order|, i requires 0 <= i < |order| => SegmentOf(order[i], raw))
  }

  /** The fields are the header's; the data is as long as the larger of what the file gives and the memory size:
      the file bytes first, if they lie in the file, then zeros. */
  lemma SegmentFields(ph: ProgramHeader, raw: Buffer)
    ensures var s := SegmentOf(ph, raw);
            && s.vaddr == ph.vaddr && s.paddr == ph.paddr && s.filesz == ph.filesz && s.memsz == ph.memsz
            && s.flags == ph.flags
            && var n := if ph.offset + ph.filesz <= |raw| then ph.filesz else 0;
               && |s.data| == (if n < ph.memsz then ph.memsz else n)
               && forall k :: 0 <= k < |s.data| ==> s.data[k] == if k < n then raw[ph.offset + k] else 0
  {
  }

  lemma AppendSegment(order: seq<ProgramHeader>, ph: ProgramHeader, raw: Buffer)
    ensures SegmentsOf(order + [ph], raw) == SegmentsOf(order, raw) + [SegmentOf(ph, raw)]
  {
    hide SegmentOf;
  }

  // ----- the flattened buffer -----

  /** The zeroed buffer after copying the segments in turn; a segment that does not fit is
      skipped. */
  ghost function Overlay(segs: seq<SegmentData>, lowest: nat, total: nat): (buf: Buffer)
    ensures |buf| == total
  {
    if segs == [] then Zeros(total)
    else Copied(Overlay(segs[..|segs| - 1], lowest, total), segs[|segs| - 1], lowest)
  }

  /** One step of the copy loop. */
  function Copied(buf: Buffer, seg: SegmentData, lowest: nat): (r: Buffer)
    ensures |r| == |buf|
  {
    var o := seg.vaddr - lowest;
    if 0 <= o && o + |seg.data| <= |buf| then buf[..o] + seg.data + buf[o + |seg.data|..] else buf
  }

  lemma OverlayStep(order: seq<ProgramHeader>, ph: ProgramHeader, raw: Buffer, lowest: nat, total: nat)
    ensures Overlay(SegmentsOf(order + [ph], raw), lowest, total)
         == Copied(Overlay(SegmentsOf(order, raw), lowest, total), SegmentOf(ph, raw), lowest)
  {
    hide SegmentOf, Copied;
    AppendSegment(order, ph, raw);
    assert SegmentsOf(order + [ph], raw)[..|order|] == SegmentsOf(order, raw);
  }

  // ----- sums that do not depend on order -----

  ghost function Sum<T>(s: seq<T>, f: T -> nat): nat {
    if s == [] then 0 else Sum(s[..|s| - 1], f) + f(s[|s| - 1])
  }

  lemma InsertAtMultiset<T>(s: seq<T>, k: nat, x: T)
    requires k <= |s|
    ensures multiset(s[..k] + [x] + s[k..]) == multiset(s) + multiset{x}
  {
    assert s == s[..k] + s[k..];
  }

  lemma SumAppend<T>(s: seq<T>, x: T, f: T -> nat)
    ensures Sum(s + [x], f) == Sum(s, f) + f(x) && Sum([x], f) == f(x)
  {
    assert (s + [x])[..|s|] == s;
  }

  lemma {:induction false} SumRemove<T>(s: seq<T>, k: nat, f: T -> nat)
    requires k < |s|
    ensures Sum(s, f) == Sum(s[..k] + s[k + 1..], f) + f(s[k])
    decreases |s|
  {
    var init, last := s[..|s| - 1], s[|s| - 1];
    if k == |s| - 1 {
      assert s[..k] + s[k + 1..] == init;
    } else {
      SumRemove(init, k, f);
      assert s[..k] + s[k + 1..] == (init[..k] + init[k + 1..]) + [last];
      SumAppend(init[..k] + init[k + 1..], last, f);
    }
  }

  lemma DropFromPermutation<T>(s: seq<T>, t: seq<T>) returns (k: nat)
    requires multiset(s) == multiset(t) && s != []
    ensures k < |t| && t[k] == s[|s| - 1]
    ensures multiset(s[..|s| - 1]) == multiset(t[..k] + t[k + 1..])
  {
    var init, last := s[..|s| - 1], s[|s| - 1];
    assert s == init + [last];
    assert last in multiset(t);
    k :| 0 <= k < |t| && t[k] == last;
    var u := t[..k] + t[k + 1..];
    InsertAtMultiset(u, k, last);
    assert u[..k] + [last] + u[k..] == t;
    CancelOne(multiset(init), multiset(u), last);
  }

  lemma CancelOne<T>(a: multiset<T>, b: multiset<T>, x: T)
    requires a + multiset{x} == b + multiset{x}
    ensures a == b
  {
    assert a == (a + multiset{x}) - multiset{x};
  }

  lemma {:induction false} SumPermuted<T>(s: seq<T>, t: seq<T>, f: T -> nat)
    requires multiset(s) == multiset(t)
    ensures Sum(s, f) == Sum(t, f)
    decreases |s|
  {
    if s != [] {
      var k := DropFromPermutation(s, t);
      SumPermuted(s[..|s| - 1], t[..k] + t[k + 1..], f);
      SumRemove(t, k, f);
    } else {
      assert |multiset(t)| == 0;
    }
  }

  ghost const FILE_SIZE: ProgramHeader -> nat := (ph: ProgramHeader) => ph.filesz
  ghost const MEM_SIZE: ProgramHeader -> nat := (ph: ProgramHeader) => ph.memsz

  // ----- the required segments -----

  function Required(phs: seq<ProgramHeader>, flags: uint32): seq<ProgramHeader> {
    if phs == [] then []
    else
      var last := phs[|phs| - 1];
      Required(phs[..|phs| - 1], flags) + (if IsRequired(last, flags) then [last] else [])
  }

  lemma {:induction false} RequiredCount(phs: seq<ProgramHeader>, flags: uint32, x: ProgramHeader)
    ensures multiset(Required(phs, flags))[x] == if IsRequired(x, flags) then multiset(phs)[x] else 0
  {
    hide IsRequired;
    if phs != [] {
      RequiredCount(phs[..|phs| - 1], flags, x);
      assert phs == phs[..|phs| - 1] + [phs[|phs| - 1]];
    }
  }

  lemma RequiredHas(phs: seq<ProgramHeader>, flags: uint32, x: ProgramHeader)
    ensures x in Required(phs, flags) <==> x in phs && IsRequired(x, flags)
  {
    RequiredCount(phs, flags, x);
    hide IsRequired, Required;
    assert x in Required(phs, flags) <==> x in multiset(Required(phs, flags));
    assert x in phs <==> x in multiset(phs);
  }

  lemma RequiredPermuted(ps: seq<ProgramHeader>, qs: seq<ProgramHeader>, flags: uint32)
    requires multiset(ps) == multiset(qs)
    ensures multiset(Required(ps, flags)) == multiset(Required(qs, flags))
  {
    hide IsRequired, Required;
    forall x ensures multiset(Required(ps, flags))[x] == multiset(Required(qs, flags))[x] {
      RequiredCount(ps, flags, x);
      RequiredCount(qs, flags, x);
    }
  }

  method Collect(phs: seq<ProgramHeader>, raw: Buffer, flags: uint32) returns (segs: seq<SegmentData>)
    ensures segs == SegmentsOf(Required(phs, flags), raw)
  {
    segs := [];
    for i := 0 to |phs|
      invariant segs == SegmentsOf(Required(phs[..i], flags), raw)
    {
      hide SegmentOf, IsRequired, SegmentsOf;
      assert phs[..i + 1][..i] == phs[..i];
      AppendSegment(Required(phs[..i], flags), phs[i], raw);
      if IsRequired(phs[i], flags) {
        segs := segs + [SegmentOf(phs[i], raw)];
      }
    }
    assert phs[..|phs|] == phs;
  }

  // ----- sorting -----

  ghost predicate SortedByVaddr(order: seq<ProgramHeader>) {
    forall i, j :: 0 <= i < j < |order| ==> order[i].vaddr <= order[j].vaddr
  }

  lemma InsertAtSorted(sorted: seq<ProgramHeader>, k: nat, x: ProgramHeader)
    requires SortedByVaddr(sorted) && k <= |sorted|
    requires k > 0 ==> sorted[k - 1].vaddr <= x.vaddr
    requires k < |sorted| ==> x.vaddr <= sorted[k].vaddr
    ensures SortedByVaddr(sorted[..k] + [x] + sorted[k..])
  {
    var r := sorted[..k] + [x] + sorted[k..];
    assert forall i :: 0 <= i < k ==> sorted[i].vaddr <= x.vaddr;
    assert forall i :: k <= i < |sorted| ==> x.vaddr <= sorted[i].vaddr;
    forall i, j | 0 <= i < j < |r|
      ensures r[i].vaddr <= r[j].vaddr
    {
      if i < k < j {
        assert r[i] == sorted[i] && r[j] == sorted[j - 1];
      }
    }
  }

  lemma InsertSegment(order: seq<ProgramHeader>, k: nat, ph: ProgramHeader, raw: Buffer)
    requires k <= |order|
    ensures SegmentsOf(order[..k] + [ph] + order[k..], raw) ==
            SegmentsOf(order, raw)[..k] + [SegmentOf(ph, raw)] + SegmentsOf(order, raw)[k..]
  {
    hide SegmentOf;
  }

  method Insert(sorted: seq<SegmentData>, x: SegmentData, ghost order: seq<ProgramHeader>, ghost ph: ProgramHeader,
                ghost raw: Buffer)
    returns (r: seq<SegmentData>, ghost next: seq<ProgramHeader>)
    requires SortedByVaddr(order) && sorted == SegmentsOf(order, raw) && x == SegmentOf(ph, raw)
    ensures multiset(r) == multiset(sorted) + multiset{x}
    ensures SortedByVaddr(next) && r == SegmentsOf(next, raw)
    ensures multiset(next) == multiset(order) + multiset{ph}
  {
    var k := |sorted|;
    while k > 0 && x.vaddr < sorted[k - 1].vaddr
      invariant 0 <= k <= |sorted|
      invariant k < |sorted| ==> x.vaddr < sorted[k].vaddr
    {
      k := k - 1;
    }
    InsertAtSorted(order, k, ph);
    InsertAtMultiset(order, k, ph);
    InsertAtMultiset(sorted, k, x);
    InsertSegment(order, k, ph, raw);
    r := sorted[..k] + [x] + sorted[k..];
    next := order[..k] + [ph] + order[k..];
  }

  lemma PrefixMultiset<T>(s: seq<T>, i: nat)
    requires i < |s|
    ensures multiset(s[..i + 1]) == multiset(s[..i]) + multiset{s[i]}
  {
    assert s[..i + 1] == s[..i] + [s[i]];
  }

  /** A sort that promises nothing about segments of equal address, like std::sort. */
  method SortByVaddr(segs: seq<SegmentData>, ghost phs: seq<ProgramHeader>, ghost raw: Buffer)
    returns (sorted: seq<SegmentData>, ghost order: seq<ProgramHeader>)
    requires segs == SegmentsOf(phs, raw)
    ensures multiset(sorted) == multiset(segs)
    ensures forall i, j :: 0 <= i < j < |sorted| ==> sorted[i].vaddr <= sorted[j].vaddr
    ensures SortedByVaddr(order) && sorted == SegmentsOf(order, raw)
    ensures multiset(order) == multiset(phs)
  {
    sorted, order := [], [];
    assert |segs| == |phs| && SortedByVaddr(order) && sorted == SegmentsOf(order, raw);
    for i := 0 to |segs|
      invariant SortedByVaddr(order) && sorted == SegmentsOf(order, raw)
      invariant multiset(order) == multiset(phs[..i]) && multiset(sorted) == multiset(segs[..i])
    {
      hide *;
      PrefixMultiset(phs, i);
      PrefixMultiset(segs, i);
      sorted, order := Insert(sorted, segs[i], order, phs[i], raw);
    }
    assert phs[..|phs|] == phs && segs[..|segs|] == segs;
    SegmentsSorted(order, raw);
    hide *;
  }

  lemma SegmentsSorted(order: seq<ProgramHeader>, raw: Buffer)
    requires SortedByVaddr(order)
    ensures var segs := SegmentsOf(order, raw);
            forall i, j :: 0 <= i < j < |segs| ==> segs[i].vaddr <= segs[j].vaddr
  {
    assert forall i :: 0 <= i < |order| ==> SegmentOf(order[i], raw).vaddr == order[i].vaddr;
    hide SegmentOf;
  }

  // ----- measuring -----

  /** The largest end address, in the 64-bit arithmetic of the code. */
  ghost predicate IsHighestEnd(order: seq<ProgramHeader>, highest: nat) {
    && (forall ph :: ph in order ==> ph.EndVaddr() <= highest)
    && (order != [] ==> exists ph :: ph in order && ph.EndVaddr() == highest)
  }

  lemma HighestStep(order: seq<ProgramHeader>, i: nat, highest: nat)
    requires i < |order| && IsHighestEnd(order[..i], highest) && (i == 0 ==> highest == 0)
    ensures var end := order[i].EndVaddr();
            IsHighestEnd(order[..i + 1], if end > highest then end else highest)
  {
    var x := order[i];
    var all := order[..i + 1];
    assert all == order[..i] + [x] && x in all;
    if x.EndVaddr() <= highest && i > 0 {
      var y :| y in order[..i] && y.EndVaddr() == highest;
      assert y in all;
    }
  }

  lemma TotalStep(order: seq<ProgramHeader>, i: nat, f: ProgramHeader -> nat)
    requires i < |order|
    ensures Add64(Wrap64(Sum(order[..i], f)), f(order[i])) == Wrap64(Sum(order[..i + 1], f))
  {
    assert order[..i + 1] == order[..i] + [order[i]];
    SumAppend(order[..i], order[i], f);
    Add64Wrapped(Sum(order[..i], f), f(order[i]));
  }

  method Measure(segs: seq<SegmentData>, ghost order: seq<ProgramHeader>, ghost raw: Buffer)
    returns (highest: uint64, fileSize: uint64, memSize: uint64)
    requires segs == SegmentsOf(order, raw)
    ensures IsHighestEnd(order, highest)
    ensures fileSize == Wrap64(Sum(order, FILE_SIZE)) && memSize == Wrap64(Sum(order, MEM_SIZE))
  {
    highest, fileSize, memSize := 0, 0, 0;
    assert IsHighestEnd(order[..0], 0) && Sum(order[..0], FILE_SIZE) == Sum(order[..0], MEM_SIZE) == 0;
    assert Wrap64(0) == 0;
    hide IsHighestEnd, Sum, Wrap64, Add64;
    for i := 0 to |segs|
      invariant IsHighestEnd(order[..i], highest) && (i == 0 ==> highest == 0)
      invariant fileSize == Wrap64(Sum(order[..i], FILE_SIZE)) && memSize == Wrap64(Sum(order[..i], MEM_SIZE))
    {
      var x := segs[i];
      TotalStep(order, i, FILE_SIZE);
      TotalStep(order, i, MEM_SIZE);
      HighestStep(order, i, highest);
      var end := Add64(x.vaddr, x.memsz);
      if end > highest {
        highest := end;
      }
      fileSize := Add64(fileSize, x.filesz);
      memSize := Add64(memSize, x.memsz);
    }
    assert order[..|order|] == order;
  }

  method Flatten(segs: seq<SegmentData>, lowest: nat, total: nat) returns (buf: Buffer)
    ensures buf == Overlay(segs, lowest, total)
  {
    buf := Zeros(total);
    for i := 0 to |segs|
      invariant buf == Overlay(segs[..i], lowest, total)
    {
      assert segs[..i + 1][..i] == segs[..i];
      buf := Copied(buf, segs[i], lowest);
    }
    assert segs[..|segs|] == segs;
  }

  // ----- the build -----

  /** The order the segments are in after sorting; segments of equal address may be either way round. */
  ghost predicate IsLayout(order: seq<ProgramHeader>, phs: seq<ProgramHeader>, flags: uint32) {
    multiset(order) == multiset(Required(phs, flags)) && SortedByVaddr(order)
  }

  /** The copy guard computes offset plus size without wrapping; otherwise copying is undefined. */
  ghost predicate CopiesDefined(order: seq<ProgramHeader>, raw: Buffer, lowest: nat) {
    forall ph :: ph in order ==> ph.vaddr - lowest + |SegmentOf(ph, raw).data| < TWO64
  }

  /** The fields the builder computes for a given order. */
  ghost predicate IsImage(elf: ElfFile, flags: uint32, order: seq<ProgramHeader>, m: Image) {
    && order != []
    && IsLayout(order, elf.programHeaders, flags)
    && m.segments == SegmentsOf(order, elf.rawData)
    && m.lowestAddr == order[0].vaddr
    && IsHighestEnd(order, m.highestAddr)
    && m.totalFileSize == Wrap64(Sum(order, FILE_SIZE))
    && m.totalMemSize == Wrap64(Sum(order, MEM_SIZE))
    && m.entryPoint == elf.header.entry
    && (|order| == 1 ==> m.bytes == m.segments[0].data)
    && (|order| > 1 && CopiesDefined(order, elf.rawData, m.lowestAddr) ==>
          m.bytes == Overlay(m.segments, m.lowestAddr, Sub64(m.highestAddr, m.lowestAddr)))
  }

  ghost predicate IsBuilt(elf: ElfFile, flags: uint32, m: Image) {
    exists order :: IsImage(elf, flags, order, m)
  }

  ghost predicate HasRequired(phs: seq<ProgramHeader>, flags: uint32) {
    exists ph :: ph in phs && IsRequired(ph, flags)
  }

  lemma NonEmptyIffRequired(phs: seq<ProgramHeader>, flags: uint32)
    ensures Required(phs, flags) != [] <==> HasRequired(phs, flags)
  {
    hide IsRequired, Required;
    if Required(phs, flags) != [] {
      RequiredHas(phs, flags, Required(phs, flags)[0]);
    }
    forall ph | ph in phs && IsRequired(ph, flags) ensures ph in Required(phs, flags) {
      RequiredHas(phs, flags, ph);
    }
  }

  lemma SameLength<T>(s: seq<T>, t: seq<T>)
    requires multiset(s) == multiset(t)
    ensures |s| == |t|
  {
    assert |multiset(s)| == |s| && |multiset(t)| == |t|;
  }

  /** The second half of the build: sort, measure and merge the collected segments. */
  method Assemble(elf: ElfFile, flags: uint32, segs: seq<SegmentData>) returns (m: Image)
    requires segs != [] && segs == SegmentsOf(Required(elf.programHeaders, flags), elf.rawData)
    ensures IsBuilt(elf, flags, m)
  {
    hide Sum, Wrap64, Overlay, IsHighestEnd, SortedByVaddr, Required, SegmentOf, CopiesDefined, Sub64;
    var sorted, order := SortByVaddr(segs, Required(elf.programHeaders, flags), elf.rawData);
    SameLength(order, Required(elf.programHeaders, flags));
    var highest, fileSize, memSize := Measure(sorted, order, elf.rawData);
    FirstSegment(order, elf.rawData);
    var lowest := sorted[0].vaddr;
    var bytes := sorted[0].data;
    if |sorted| != 1 {
      bytes := Flatten(sorted, lowest, Sub64(highest, lowest));
    }
    m := Image(lowest, highest, fileSize, memSize, elf.header.entry, bytes, sorted);
    assert IsImage(elf, flags, order, m);
  }

  lemma FirstSegment(order: seq<ProgramHeader>, raw: Buffer)
    requires order != []
    ensures SegmentsOf(order, raw)[0].vaddr == order[0].vaddr
  {
  }

  method Build(elf: ElfFile, flags: uint32) returns (r: BuildResult)
    ensures r.Built? <==> elf.IsValid() && HasRequired(elf.programHeaders, flags)
    ensures r.Built? ==> IsBuilt(elf, flags, r.image)
  {
    hide HasRequired, IsBuilt, Required;
    if !elf.IsValid() {
      return NotBuilt;
    }
    var segs := Collect(elf.programHeaders, elf.rawData, flags);
    NonEmptyIffRequired(elf.programHeaders, flags);
    if segs == [] {
      return NotBuilt;
    }
    var m := Assemble(elf, flags, segs);
    r := Built(m);
  }
}
