/** The bytes of a cached record, and what a reader makes of files that are not one. */
module CacheLayout {
  import opened Bytes
  import opened CacheCodec
  import opened CacheRecords
  import opened PackageTypes

  /** Four bytes, the lowest first. */
  function Word(v: uint32): Buffer {
    [v % 256, v / 256 % 256, v / 65536 % 256, v / 16777216]
  }

  function Text(s: Buffer): Buffer
    requires Short(s)
  {
    Word(|s|) + s
  }

  lemma WordBytes(v: uint32)
    ensures LeBytes(v, 4) == Word(v)
  {
    assert LeBytes(v, 4) == [v % 256] + LeBytes(v / 256, 3);
    assert LeBytes(v / 256, 3) == [v / 256 % 256] + LeBytes(v / 256 / 256, 2);
    assert LeBytes(v / 256 / 256, 2) == [v / 256 / 256 % 256] + LeBytes(v / 256 / 256 / 256, 1);
    assert LeBytes(v / 256 / 256 / 256, 1) == [v / 256 / 256 / 256 % 256] + [];
  }

  lemma NumberBytes(v: uint32)
    ensures EncodeItem(U32(v)) == Word(v)
  {
    WordBytes(v);
  }

  lemma TextBytes(s: Buffer)
    requires Short(s)
    ensures EncodeItem(Str(s)) == Text(s)
  {
    WordBytes(|s|);
    ClippedIff(s);
  }

  lemma ItemsOfMore(it: Item, items: seq<Item>)
    ensures EncodeItems([it] + items) == EncodeItem(it) + EncodeItems(items)
  {
    assert ([it] + items)[1..] == items;
    hide EncodeItem;
  }

  lemma FourItems(a: Item, b: Item, c: Item, d: Item, items: seq<Item>)
    ensures EncodeItems([a, b, c, d] + items) ==
            EncodeItem(a) + EncodeItem(b) + EncodeItem(c) + EncodeItem(d) + EncodeItems(items)
  {
    hide EncodeItem, EncodeItems;
    assert [a, b, c, d] + items == [a] + ([b] + ([c] + ([d] + items)));
    ItemsOfMore(a, [b] + ([c] + ([d] + items)));
    ItemsOfMore(b, [c] + ([d] + items));
    ItemsOfMore(c, [d] + items);
    ItemsOfMore(d, items);
  }

  /** The first sixteen bytes of every record: the magic number and version 1.0.0. */
  const SIGNATURE: Buffer := [0x4D, 0x50, 0x43, 0x44, 1, 0, 0, 0, 0, 0, 0, 0, 0, 0, 0, 0]

  function Names(m: Metadata): Buffer
    requires WithinLimits(m)
  {
    Text(m.packageId) + Text(m.name) + Text(m.vendor) + Text(m.description)
  }

  function Numbers(v: Version): Buffer {
    Word(v.major) + Word(v.minor) + Word(v.patch)
  }

  function Compatibility(m: Metadata): Buffer
    requires WithinLimits(m)
  {
    Text(m.minCoreVersion) + Text(m.maxCoreVersion) + Word(m.state) + Word(m.origin)
  }

  function Places(m: Metadata): Buffer
    requires WithinLimits(m)
  {
    Text(m.installPath) + Text(m.packageFileName) + Text(m.repository) + Word(|m.chipsets|)
  }

  function ChipsetText(c: Chipset): Buffer
    requires ShortChipset(c)
  {
    Text(c.vendor) + Text(c.family) + Text(c.variant) + Text(c.displayName)
  }

  ghost predicate AllShort(cs: seq<Chipset>) {
    forall i :: 0 <= i < |cs| ==> ShortChipset(cs[i])
  }

  ghost function ChipsetBytes(cs: seq<Chipset>): Buffer
    requires AllShort(cs)
  {
    if cs == [] then [] else ChipsetText(cs[0]) + ChipsetBytes(cs[1..])
  }

  lemma ChipsetTextBytes(c: Chipset)
    requires ShortChipset(c)
    ensures EncodeItems(ChipsetItems(c)) == ChipsetText(c)
  {
    TextBytes(c.vendor); TextBytes(c.family); TextBytes(c.variant); TextBytes(c.displayName);
    FourItems(Str(c.vendor), Str(c.family), Str(c.variant), Str(c.displayName), []);
    NoItems();
    hide EncodeItem, EncodeItems, Text;
    assert ChipsetItems(c) + [] == ChipsetItems(c);
  }

  lemma {:induction false} ChipsetLayout(cs: seq<Chipset>)
    requires AllShort(cs)
    ensures EncodeChipsets(cs) == ChipsetBytes(cs)
  {
    hide EncodeItems, ChipsetItems, ChipsetText, ShortChipset;
    if cs != [] {
      ChipsetTextBytes(cs[0]);
      ChipsetLayout(cs[1..]);
    }
  }

  lemma NoItems()
    ensures EncodeItems([]) == []
  {
  }

  lemma SignatureWords()
    ensures SIGNATURE == Word(MAGIC) + Word(1) + Word(0) + Word(0)
  {
    assert Word(MAGIC) == [0x4D, 0x50, 0x43, 0x44] && Word(1) == [1, 0, 0, 0] && Word(0) == [0, 0, 0, 0];
    hide Word;
  }

  lemma SignatureBytes(rest: seq<Item>)
    ensures EncodeItems([U32(MAGIC), U32(1), U32(0), U32(0)] + rest) == SIGNATURE + EncodeItems(rest)
  {
    hide EncodeItem, EncodeItems, Word;
    NumberBytes(MAGIC); NumberBytes(1); NumberBytes(0);
    SignatureWords();
    FourItems(U32(MAGIC), U32(1), U32(0), U32(0), rest);
  }

  lemma NamesBytes(m: Metadata, rest: seq<Item>)
    requires WithinLimits(m)
    ensures EncodeItems([Str(m.packageId), Str(m.name), Str(m.vendor), Str(m.description)] + rest)
            == Names(m) + EncodeItems(rest)
  {
    TextBytes(m.packageId); TextBytes(m.name); TextBytes(m.vendor); TextBytes(m.description);
    hide EncodeItem, EncodeItems, Text;
    FourItems(Str(m.packageId), Str(m.name), Str(m.vendor), Str(m.description), rest);
  }

  lemma NumbersBytes(v: Version, rest: seq<Item>)
    ensures EncodeItems([U32(v.major), U32(v.minor), U32(v.patch)] + rest) == Numbers(v) + EncodeItems(rest)
  {
    NumberBytes(v.major); NumberBytes(v.minor); NumberBytes(v.patch);
    hide EncodeItem, EncodeItems, Word;
    ItemsOfMore(U32(v.major), [U32(v.minor)] + ([U32(v.patch)] + rest));
    ItemsOfMore(U32(v.minor), [U32(v.patch)] + rest);
    ItemsOfMore(U32(v.patch), rest);
    assert [U32(v.major), U32(v.minor), U32(v.patch)] + rest == [U32(v.major)] + ([U32(v.minor)] + ([U32(v.patch)] + rest));
  }

  lemma CompatibilityBytes(m: Metadata, rest: seq<Item>)
    requires WithinLimits(m)
    ensures EncodeItems([Str(m.minCoreVersion), Str(m.maxCoreVersion), U32(m.state), U32(m.origin)] + rest)
            == Compatibility(m) + EncodeItems(rest)
  {
    TextBytes(m.minCoreVersion); TextBytes(m.maxCoreVersion); NumberBytes(m.state); NumberBytes(m.origin);
    hide EncodeItem, EncodeItems, Text, Word;
    FourItems(Str(m.minCoreVersion), Str(m.maxCoreVersion), U32(m.state), U32(m.origin), rest);
  }

  lemma PlacesBytes(m: Metadata)
    requires WithinLimits(m)
    ensures EncodeItems([Str(m.installPath), Str(m.packageFileName), Str(m.repository), U32(|m.chipsets|)]) == Places(m)
  {
    TextBytes(m.installPath); TextBytes(m.packageFileName); TextBytes(m.repository); NumberBytes(|m.chipsets|);
    NoItems();
    hide EncodeItem, EncodeItems, Text, Word;
    var its := [Str(m.installPath), Str(m.packageFileName), Str(m.repository), U32(|m.chipsets|)];
    FourItems(its[0], its[1], its[2], its[3], []);
    assert its + [] == its;
  }

  lemma HeadLayout(m: Metadata)
    requires WithinLimits(m)
    ensures EncodeItems(Head(m)) == SIGNATURE + Names(m) + Numbers(m.version) + Compatibility(m) + Places(m)
  {
    hide EncodeItems, Names, Numbers, Compatibility, Places;
    var v := m.version;
    var last := [Str(m.installPath), Str(m.packageFileName), Str(m.repository), U32(|m.chipsets|)];
    var more := [Str(m.minCoreVersion), Str(m.maxCoreVersion), U32(m.state), U32(m.origin)] + last;
    var numbers := [U32(v.major), U32(v.minor), U32(v.patch)] + more;
    var names := [Str(m.packageId), Str(m.name), Str(m.vendor), Str(m.description)] + numbers;
    SignatureBytes(names);
    NamesBytes(m, numbers);
    NumbersBytes(v, more);
    CompatibilityBytes(m, last);
    PlacesBytes(m);
    assert Head(m) == [U32(MAGIC), U32(1), U32(0), U32(0)] + names;
  }

  /** The bytes of a record within the limits, first to last. */
  lemma MetadataLayout(m: Metadata)
    requires WithinLimits(m)
    ensures EncodeMetadata(m) ==
            SIGNATURE + Names(m) + Numbers(m.version) + Compatibility(m) + Places(m) + ChipsetBytes(m.chipsets)
  {
    hide EncodeItems, EncodeChipsets, ChipsetBytes, Head, Names, Numbers, Compatibility, Places;
    HeadLayout(m);
    ChipsetLayout(m.chipsets);
  }

  /** Only an empty file is a miss; a file that starts with other bytes than the magic number is corrupt. */
  lemma MissesAndMagic(bs: Buffer)
    ensures DecodeMetadata(bs) == CacheMiss <==> bs == []
    ensures bs != [] && (|bs| < 4 || bs[..4] != SIGNATURE[..4]) ==> DecodeMetadata(bs) == Corrupt
  {
    hide DecodeChipsets, FromHead;
    if 4 <= |bs| && bs[..4] != SIGNATURE[..4] {
      OtherMagic(bs);
    }
  }

  lemma OtherMagic(bs: Buffer)
    requires 4 <= |bs| && bs[..4] != SIGNATURE[..4]
    ensures DecodeU32(bs).Some? && DecodeU32(bs).value.value != MAGIC
  {
    BytesOfValue(bs[..4]);
    WordBytes(MAGIC);
    assert Word(MAGIC) == [0x4D, 0x50, 0x43, 0x44];
  }

  lemma OrderMisses(bs: Buffer)
    ensures DecodeOrder(bs) == CacheMiss <==> bs == []
  {
    hide DecodeStrings, DecodeU32;
  }

  lemma LookupMisses(bs: Buffer)
    ensures DecodeLookup(bs) == CacheMiss <==> bs == []
  {
    hide DecodeItem;
  }

  // ----- dependency orders -----

  function Texts(order: seq<Buffer>): Buffer
    requires forall i :: 0 <= i < |order| ==> Short(order[i])
  {
    if order == [] then [] else Text(order[0]) + Texts(order[1..])
  }

  lemma {:induction false} TextsBytes(order: seq<Buffer>)
    requires forall i :: 0 <= i < |order| ==> Short(order[i])
    ensures EncodeItems(Strings(order)) == Texts(order)
  {
    hide EncodeItem, Text;
    if order != [] {
      TextsBytes(order[1..]);
      TextBytes(order[0]);
      EncodeStringsStep(order);
    }
  }

  lemma OrderBytes(order: seq<Buffer>)
    requires |order| < TWO32
    ensures EncodeOrder(order) == Word(|order|) + EncodeItems(CacheRecords.Strings(order))
  {
    assert |order| % TWO32 == |order|;
    assert LeBytes(|order|, 4) == Word(|order|) by {
      hide *;
      WordBytes(|order|);
    }
    hide Word, EncodeItems, LeBytes, CacheRecords.Strings;
  }

  lemma OrderLayout(order: seq<Buffer>)
    requires |order| < TWO32 && forall i :: 0 <= i < |order| ==> Short(order[i])
    ensures EncodeOrder(order) == Word(|order|) + Texts(order)
  {
    OrderBytes(order);
    TextsBytes(order);
    hide *;
  }
}
