/** The records DSPCache stores: package metadata, dependency orders and lookup values. */
module CacheRecords {
  import opened Bytes
  import opened CacheCodec
  import opened PackageTypes
  import opened Wrappers

  datatype Chipset = Chipset(vendor: Buffer, family: Buffer, variant: Buffer, displayName: Buffer)

  /** The serialized fields of a package's metadata. */
  datatype Metadata = Metadata(
    packageId: Buffer, name: Buffer, vendor: Buffer, description: Buffer, version: Version,
    minCoreVersion: Buffer, maxCoreVersion: Buffer, state: uint32, origin: uint32,
    installPath: Buffer, packageFileName: Buffer, repository: Buffer, chipsets: seq<Chipset>)

  datatype Result<T> = Loaded(value: T) | CacheMiss | Corrupt

  const MAGIC: uint32 := 0x4443504D

  // ----- formats -----

  function Head(m: Metadata): seq<Item> {
    [U32(MAGIC), U32(1), U32(0), U32(0),
     Str(m.packageId), Str(m.name), Str(m.vendor), Str(m.description),
     U32(m.version.major), U32(m.version.minor), U32(m.version.patch),
     Str(m.minCoreVersion), Str(m.maxCoreVersion), U32(m.state), U32(m.origin),
     Str(m.installPath), Str(m.packageFileName), Str(m.repository), U32(|m.chipsets| % TWO32)]
  }

  const HEAD_KINDS: seq<Kind> :=
    [KU32, KU32, KU32, KU32, KStr, KStr, KStr, KStr, KU32, KU32, KU32, KStr, KStr, KU32, KU32, KStr, KStr, KStr, KU32]

  function ChipsetItems(c: Chipset): seq<Item> {
    [Str(c.vendor), Str(c.family), Str(c.variant), Str(c.displayName)]
  }

  const CHIPSET_KINDS: seq<Kind> := [KStr, KStr, KStr, KStr]

  function EncodeChipsets(cs: seq<Chipset>): Buffer {
    if cs == [] then [] else EncodeItems(ChipsetItems(cs[0])) + EncodeChipsets(cs[1..])
  }

  function EncodeMetadata(m: Metadata): Buffer {
    EncodeItems(Head(m)) + EncodeChipsets(m.chipsets)
  }

  /** Up to `count` chipsets; the first one that cannot be read ends the list silently. */
  function DecodeChipsets(count: nat, bs: Buffer): seq<Chipset> {
    if count == 0 then []
    else
      match DecodeItems(CHIPSET_KINDS, bs)
      case None => []
      case Some(Read(its, rest)) =>
        assert KindsOf(its) == CHIPSET_KINDS;
        ChipsetFrom(its) + DecodeChipsets(count - 1, rest)
  }

  function ChipsetFrom(its: seq<Item>): seq<Chipset>
    requires KindsOf(its) == CHIPSET_KINDS
  {
    AllStrings(its);
    [Chipset(its[0].s, its[1].s, its[2].s, its[3].s)]
  }

  lemma AllStrings(its: seq<Item>)
    requires KindsOf(its) == CHIPSET_KINDS
    ensures |its| == 4 && its[0].Str? && its[1].Str? && its[2].Str? && its[3].Str?
  {
    assert forall i :: 0 <= i < 4 ==> KindsOf(its)[i] == KindOf(its[i]);
  }

  lemma HeadShape(its: seq<Item>)
    requires KindsOf(its) == HEAD_KINDS
    ensures |its| == 19
    ensures forall i :: i in {0, 1, 2, 3, 8, 9, 10, 13, 14, 18} ==> its[i].U32?
    ensures forall i :: i in {4, 5, 6, 7, 11, 12, 15, 16, 17} ==> its[i].Str?
  {
    assert forall i :: 0 <= i < 19 ==> KindsOf(its)[i] == KindOf(its[i]);
  }

  function FromHead(its: seq<Item>, chipsets: seq<Chipset>): Metadata
    requires KindsOf(its) == HEAD_KINDS
  {
    HeadShape(its);
    Metadata(its[4].s, its[5].s, its[6].s, its[7].s, Version(its[8].v, its[9].v, its[10].v),
             its[11].s, its[12].s, its[13].v, its[14].v, its[15].s, its[16].s, its[17].s, chipsets)
  }

  function DecodeMetadata(bs: Buffer): Result<Metadata> {
    if bs == [] then CacheMiss
    else
      match DecodeItems(HEAD_KINDS, bs)
      case None => Corrupt
      case Some(Read(its, rest)) =>
        assert KindsOf(its) == HEAD_KINDS;
        HeadShape(its);
        if its[0].v != MAGIC then Corrupt else Loaded(FromHead(its, DecodeChipsets(its[18].v, rest)))
  }

  function EncodeOrder(order: seq<Buffer>): Buffer {
    LeBytes(|order| % TWO32, 4) + EncodeItems(Strings(order))
  }

  function Strings(order: seq<Buffer>): (its: seq<Item>)
    ensures |its| == |order| && forall i :: 0 <= i < |order| ==> its[i] == Str(order[i])
  {
    seq(|order|, i requires 0 <= i < |order| => Str(order[i]))
  }

  /** Exactly `count` strings, or a failure. */
  function DecodeStrings(count: nat, bs: Buffer): Option<seq<Buffer>> {
    if count == 0 then Some([])
    else
      match DecodeItem(KStr, bs)
      case None => None
      case Some(Read(it, rest)) =>
        match DecodeStrings(count - 1, rest)
        case None => None
        case Some(ss) => Some([it.s] + ss)
  }

  function DecodeOrder(bs: Buffer): Result<seq<Buffer>> {
    if bs == [] then CacheMiss
    else
      match DecodeU32(bs)
      case None => Corrupt
      case Some(Read(count, rest)) =>
        match DecodeStrings(count, rest)
        case None => Corrupt
        case Some(order) => Loaded(order)
  }

  // ----- what survives -----

  function ClipChipset(c: Chipset): Chipset {
    Chipset(Clipped(c.vendor), Clipped(c.family), Clipped(c.variant), Clipped(c.displayName))
  }

  function ClipChipsets(cs: seq<Chipset>): (r: seq<Chipset>)
    ensures |r| == |cs| && forall i :: 0 <= i < |cs| ==> r[i] == ClipChipset(cs[i])
  {
    seq(|cs|, i requires 0 <= i < |cs| => ClipChipset(cs[i]))
  }

  function Clip(m: Metadata): Metadata {
    Metadata(Clipped(m.packageId), Clipped(m.name), Clipped(m.vendor), Clipped(m.description), m.version,
             Clipped(m.minCoreVersion), Clipped(m.maxCoreVersion), m.state, m.origin, Clipped(m.installPath),
             Clipped(m.packageFileName), Clipped(m.repository),
             ClipChipsets(m.chipsets[..|m.chipsets| % TWO32]))
  }

  predicate Short(s: Buffer) {
    |s| < TWO32
  }

  predicate ShortChipset(c: Chipset) {
    Short(c.vendor) && Short(c.family) && Short(c.variant) && Short(c.displayName)
  }

  /** Every length fits its 32-bit field. */
  ghost predicate WithinLimits(m: Metadata) {
    && Short(m.packageId) && Short(m.name) && Short(m.vendor) && Short(m.description)
    && Short(m.minCoreVersion) && Short(m.maxCoreVersion) && Short(m.installPath)
    && Short(m.packageFileName) && Short(m.repository)
    && |m.chipsets| < TWO32
    && forall i :: 0 <= i < |m.chipsets| ==> ShortChipset(m.chipsets[i])
  }

  lemma HeadKinds(m: Metadata)
    ensures KindsOf(Head(m)) == HEAD_KINDS
  {
  }

  lemma ClippedIff(s: Buffer)
    ensures Clipped(s) == s <==> Short(s)
    ensures |Clipped(s)| == |s| <==> Short(s)
  {
  }

  lemma ClipIff(m: Metadata)
    ensures Clip(m) == m <==> WithinLimits(m)
  {
    hide Clipped, Short;
    ClippedIff(m.packageId); ClippedIff(m.name); ClippedIff(m.vendor); ClippedIff(m.description);
    ClippedIff(m.minCoreVersion); ClippedIff(m.maxCoreVersion); ClippedIff(m.installPath);
    ClippedIff(m.packageFileName); ClippedIff(m.repository);
    ClipChipsetsIff(m.chipsets);
  }

  lemma ClipChipsetIff(c: Chipset)
    ensures ClipChipset(c) == c <==> ShortChipset(c)
  {
    ClippedIff(c.vendor); ClippedIff(c.family); ClippedIff(c.variant); ClippedIff(c.displayName);
  }

  lemma ClipChipsetsIff(cs: seq<Chipset>)
    ensures ClipChipsets(cs[..|cs| % TWO32]) == cs <==>
            |cs| < TWO32 && forall i :: 0 <= i < |cs| ==> ShortChipset(cs[i])
  {
    hide ClipChipset, ShortChipset;
    forall i | 0 <= i < |cs|
      ensures ClipChipset(cs[i]) == cs[i] <==> ShortChipset(cs[i])
    {
      ClipChipsetIff(cs[i]);
    }
    var r := ClipChipsets(cs[..|cs| % TWO32]);
    if |cs| < TWO32 {
      assert cs[..|cs| % TWO32] == cs;
      if r == cs {
        assert forall i :: 0 <= i < |cs| ==> r[i] == ClipChipset(cs[i]);
      }
    } else {
      assert |r| < |cs|;
    }
  }

  // ----- round trips -----

  lemma ChipsetStep(c: Chipset, count: nat, rest: Buffer)
    requires count > 0
    ensures DecodeChipsets(count, EncodeItems(ChipsetItems(c)) + rest)
            == [ClipChipset(c)] + DecodeChipsets(count - 1, rest)
  {
    hide DecodeItems, EncodeItems, Clipped;
    var its := ChipsetItems(c);
    assert KindsOf(its) == CHIPSET_KINDS;
    DecodeItemsEncoded(its, rest);
    assert ChipsetFrom(ClipItems(its)) == [ClipChipset(c)];
  }

  lemma EncodeChipsetsStep(cs: seq<Chipset>)
    requires cs != []
    ensures EncodeChipsets(cs) == EncodeItems(ChipsetItems(cs[0])) + EncodeChipsets(cs[1..])
  {
    hide EncodeItems, ChipsetItems;
  }

  lemma DecodeNothing(bs: Buffer)
    ensures DecodeChipsets(0, bs) == [] && DecodeStrings(0, bs) == Some([])
  {
  }

  lemma ClipChipsetsStep(cs: seq<Chipset>, count: nat)
    requires 0 < count <= |cs|
    ensures ClipChipsets(cs[..count]) == [ClipChipset(cs[0])] + ClipChipsets(cs[1..][..count - 1])
  {
    hide ClipChipset;
    assert cs[..count] == [cs[0]] + cs[1..][..count - 1];
  }

  lemma {:induction false} DecodeChipsetsEncoded(cs: seq<Chipset>, count: nat)
    requires count <= |cs|
    ensures DecodeChipsets(count, EncodeChipsets(cs)) == ClipChipsets(cs[..count])
    decreases count
  {
    hide *;
    if count == 0 {
      DecodeNothing(EncodeChipsets(cs));
    } else {
      EncodeChipsetsStep(cs);
      ChipsetStep(cs[0], count, EncodeChipsets(cs[1..]));
      DecodeChipsetsEncoded(cs[1..], count - 1);
      ClipChipsetsStep(cs, count);
    }
  }

  /** What a load returns after a store, for every record. */
  lemma MetadataRoundTrip(m: Metadata)
    ensures DecodeMetadata(EncodeMetadata(m)) == Loaded(Clip(m))
  {
    hide DecodeItems, Clipped;
    var its, tail := Head(m), EncodeChipsets(m.chipsets);
    HeadKinds(m);
    DecodeItemsEncoded(its, tail);
    DecodeChipsetsEncoded(m.chipsets, |m.chipsets| % TWO32);
    HeadShape(ClipItems(its));
    assert EncodeMetadata(m) != [] by {
      assert |EncodeItem(its[0])| == 4;
    }
  }

  /** A stored record loads unchanged exactly when every length fits its 32-bit field. */
  lemma MetadataRoundTripIff(m: Metadata)
    ensures DecodeMetadata(EncodeMetadata(m)) == Loaded(m) <==> WithinLimits(m)
  {
    MetadataRoundTrip(m);
    ClipIff(m);
  }

  // ----- truncation -----

  lemma {:induction false} DecodeChipsetsTruncated(cs: seq<Chipset>, n: nat) returns (j: nat)
    requires n < |EncodeChipsets(cs)|
    ensures j < |cs| && DecodeChipsets(|cs|, EncodeChipsets(cs)[..n]) == ClipChipsets(cs[..j])
    decreases |cs|
  {
    hide DecodeItems, EncodeItems, Clipped, ClipChipset;
    var its, first, rest := ChipsetItems(cs[0]), EncodeItems(ChipsetItems(cs[0])), EncodeChipsets(cs[1..]);
    assert KindsOf(its) == CHIPSET_KINDS;
    var bs := EncodeChipsets(cs)[..n];
    if n < |first| {
      assert bs == first[..n];
      DecodeItemsTruncated(its, n);
      j := 0;
    } else {
      var k := n - |first|;
      assert bs == first + rest[..k];
      ChipsetStep(cs[0], |cs|, rest[..k]);
      var i := DecodeChipsetsTruncated(cs[1..], k);
      j := i + 1;
      ClipChipsetsStep(cs, j);
    }
  }

  /** A record file cut anywhere is rejected, or loads with every other field intact and a
      strictly shorter prefix of the chipsets. */
  lemma MetadataTruncated(m: Metadata, n: nat)
    requires |m.chipsets| < TWO32 && n < |EncodeMetadata(m)|
    ensures var r := DecodeMetadata(EncodeMetadata(m)[..n]);
            !r.Loaded? || exists j :: 0 <= j < |m.chipsets| &&
                            r.value == Clip(m).(chipsets := ClipChipsets(m.chipsets[..j]))
  {
    hide DecodeItems, EncodeItems, Clipped;
    var its, head, tail := Head(m), EncodeItems(Head(m)), EncodeChipsets(m.chipsets);
    HeadKinds(m);
    var bs := EncodeMetadata(m)[..n];
    if n < |head| {
      assert bs == head[..n];
      DecodeItemsTruncated(its, n);
    } else {
      var k := n - |head|;
      assert bs == head + tail[..k];
      DecodeItemsEncoded(its, tail[..k]);
      HeadShape(ClipItems(its));
      var j := DecodeChipsetsTruncated(m.chipsets, k);
      assert its[18] == U32(|m.chipsets|);
    }
  }

  // ----- dependency orders and lookup values -----

  function ClipStrings(order: seq<Buffer>): (r: seq<Buffer>)
    ensures |r| == |order| && forall i :: 0 <= i < |order| ==> r[i] == Clipped(order[i])
  {
    seq(|order|, i requires 0 <= i < |order| => Clipped(order[i]))
  }

  lemma StringStep(s: Buffer, count: nat, rest: Buffer)
    requires count > 0
    ensures DecodeStrings(count, EncodeItem(Str(s)) + rest)
            == match DecodeStrings(count - 1, rest) case None => None case Some(ss) => Some([Clipped(s)] + ss)
  {
    hide DecodeItem, EncodeItem, Clipped;
    DecodeItemEncoded(Str(s), rest);
  }

  lemma EncodeStringsStep(order: seq<Buffer>)
    requires order != []
    ensures EncodeItems(Strings(order)) == EncodeItem(Str(order[0])) + EncodeItems(Strings(order[1..]))
  {
    assert Strings(order)[1..] == Strings(order[1..]);
  }

  lemma {:induction false} DecodeStringsEncoded(order: seq<Buffer>, count: nat)
    requires count <= |order|
    ensures DecodeStrings(count, EncodeItems(Strings(order))) == Some(ClipStrings(order[..count]))
    decreases count
  {
    hide *;
    if count == 0 {
      DecodeNothing(EncodeItems(Strings(order)));
    } else {
      EncodeStringsStep(order);
      StringStep(order[0], count, EncodeItems(Strings(order[1..])));
      DecodeStringsEncoded(order[1..], count - 1);
      assert order[..count] == [order[0]] + order[1..][..count - 1];
      assert ClipStrings(order[..count]) == [Clipped(order[0])] + ClipStrings(order[1..][..count - 1]);
    }
  }

  lemma {:induction false} DecodeStringsTruncated(order: seq<Buffer>, n: nat)
    requires n < |EncodeItems(Strings(order))|
    ensures DecodeStrings(|order|, EncodeItems(Strings(order))[..n]) == None
    decreases |order|
  {
    hide DecodeItem, EncodeItem, Clipped;
    var first, rest := EncodeItem(Str(order[0])), EncodeItems(Strings(order[1..]));
    EncodeStringsStep(order);
    var bs := EncodeItems(Strings(order))[..n];
    if n < |first| {
      assert bs == first[..n];
      DecodeItemTruncated(Str(order[0]), n);
    } else {
      assert bs == first + rest[..n - |first|];
      StringStep(order[0], |order|, rest[..n - |first|]);
      DecodeStringsTruncated(order[1..], n - |first|);
    }
  }

  lemma OrderRoundTrip(order: seq<Buffer>)
    ensures DecodeOrder(EncodeOrder(order)) == Loaded(ClipStrings(order[..|order| % TWO32]))
  {
    hide DecodeU32, Clipped;
    DecodeU32Encoded(|order| % TWO32, EncodeItems(Strings(order)));
    DecodeStringsEncoded(order, |order| % TWO32);
  }

  lemma OrderRoundTripIff(order: seq<Buffer>)
    ensures DecodeOrder(EncodeOrder(order)) == Loaded(order) <==>
            |order| < TWO32 && forall i :: 0 <= i < |order| ==> Short(order[i])
  {
    OrderRoundTrip(order);
    hide Clipped, Short;
    forall i | 0 <= i < |order|
      ensures Clipped(order[i]) == order[i] <==> Short(order[i])
    {
      ClippedIff(order[i]);
    }
    var r := ClipStrings(order[..|order| % TWO32]);
    if |order| < TWO32 {
      assert order[..|order| % TWO32] == order;
      assert forall i :: 0 <= i < |order| ==> r[i] == Clipped(order[i]);
      assert r == order <==> forall i :: 0 <= i < |order| ==> r[i] == order[i];
    } else {
      assert |r| < |order|;
    }
  }

  /** Every strict prefix of a dependency-order file is rejected. */
  lemma OrderTruncated(order: seq<Buffer>, n: nat)
    requires |order| < TWO32 && n < |EncodeOrder(order)|
    ensures !DecodeOrder(EncodeOrder(order)[..n]).Loaded?
  {
    var bs := EncodeOrder(order)[..n];
    if n >= 4 {
      hide DecodeU32;
      var tail := EncodeItems(Strings(order));
      assert bs == LeBytes(|order|, 4) + tail[..n - 4];
      DecodeU32Encoded(|order|, tail[..n - 4]);
      DecodeStringsTruncated(order, n - 4);
    }
  }

  function DecodeLookup(bs: Buffer): Result<Buffer> {
    if bs == [] then CacheMiss
    else
      match DecodeItem(KStr, bs)
      case None => Corrupt
      case Some(Read(it, _)) => Loaded(it.s)
  }

  lemma LookupRoundTripIff(value: Buffer)
    ensures DecodeLookup(EncodeItem(Str(value))) == Loaded(value) <==> Short(value)
    ensures DecodeLookup(EncodeItem(Str(value))) == Loaded(Clipped(value))
  {
    var bs := EncodeItem(Str(value));
    assert bs + [] == bs;
    DecodeItemEncoded(Str(value), []);
    ClippedIff(value);
  }
}
