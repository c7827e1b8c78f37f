/** DSPRepository's linear search: which packages a query matches. */
module PackageQuery {
  import opened Discovery
  import opened PackageTypes
  import opened Sequences

  datatype ProtocolInfo = ProtocolInfo(kind: Protocol, properties: seq<(string, string)>)
  datatype Loader = Loader(loaderId: string, name: string, compatibleVendors: seq<string>)

  datatype Metadata = Metadata(
    packageId: string, name: string, description: string, vendor: string, version: Version, tags: seq<string>,
    protocols: seq<ProtocolInfo>, bootModes: seq<BootMode>, loaders: seq<Loader>, chipsets: seq<ChipsetId>,
    transports: seq<string>, vendorName: string, vendorProperties: seq<(string, string)>, state: State, origin: Origin)

  datatype Query = Query(
    searchText: string, vendor: Vendor, chipset: ChipsetId, loaderName: string, bootMode: BootMode,
    protocol: Protocol, minVersion: Version, maxVersion: Version, capability: string, tag: string,
    state: State, origin: Origin, caseSensitive: bool)

  // ----- the linear search -----

  function Lower(c: char): char {
    if 'A' <= c <= 'Z' then c + 32 as char else c
  }

  predicate Same(a: string, b: string, caseSensitive: bool) {
    if caseSensitive then a == b
    else |a| == |b| && forall i :: 0 <= i < |a| ==> Lower(a[i]) == Lower(b[i])
  }

  predicate OccursAt(text: string, i: nat, query: string, caseSensitive: bool) {
    i + |query| <= |text| && Same(text[i..i + |query|], query, caseSensitive)
  }

  /** An empty text contains every query. */
  predicate ContainsText(text: string, query: string, caseSensitive: bool) {
    text == "" || query == "" || exists i: nat :: i < |text| && OccursAt(text, i, query, caseSensitive)
  }

  predicate HasCapability(properties: seq<(string, string)>, capability: string, caseSensitive: bool) {
    exists kv :: kv in properties &&
      (ContainsText(kv.0, capability, caseSensitive) || ContainsText(kv.1, capability, caseSensitive))
  }

  predicate TextMatches(p: Metadata, q: Query) {
    || q.searchText == ""
    || ContainsText(p.packageId, q.searchText, q.caseSensitive)
    || ContainsText(p.name, q.searchText, q.caseSensitive)
    || ContainsText(p.description, q.searchText, q.caseSensitive)
    || ContainsText(p.vendor, q.searchText, q.caseSensitive)
  }

  predicate VendorMatches(p: Metadata, q: Query) {
    q.vendor.Unknown? || Same(p.vendor, VendorName(q.vendor), q.caseSensitive)
  }

  predicate ChipsetFits(c: ChipsetId, q: Query) {
    && (q.chipset.vendor == "" || Same(c.vendor, q.chipset.vendor, q.caseSensitive))
    && (q.chipset.family == "" || Same(c.family, q.chipset.family, q.caseSensitive))
  }

  predicate ChipsetMatches(p: Metadata, q: Query) {
    (q.chipset.vendor == "" && q.chipset.family == "") || exists c :: c in p.chipsets && ChipsetFits(c, q)
  }

  predicate LoaderFits(l: Loader, q: Query) {
    Same(l.loaderId, q.loaderName, q.caseSensitive) || Same(l.name, q.loaderName, q.caseSensitive)
  }

  predicate LoaderMatches(p: Metadata, q: Query) {
    q.loaderName == "" || exists l :: l in p.loaders && LoaderFits(l, q)
  }

  predicate InBounds(v: Version, min: Version, max: Version) {
    && (min.IsBound() ==> !v.Less(min))
    && (max.IsBound() ==> !max.Less(v))
  }

  predicate CapabilityMatches(p: Metadata, q: Query) {
    || q.capability == ""
    || (exists pr :: pr in p.protocols && HasCapability(pr.properties, q.capability, q.caseSensitive))
    || HasCapability(p.vendorProperties, q.capability, q.caseSensitive)
  }

  predicate TagMatches(p: Metadata, q: Query) {
    q.tag == "" || exists t :: t in p.tags && Same(t, q.tag, q.caseSensitive)
  }

  predicate HasProtocol(p: Metadata, kind: Protocol) {
    exists pr :: pr in p.protocols && pr.kind == kind
  }

  predicate MatchesQuery(p: Metadata, q: Query) {
    && TextMatches(p, q)
    && VendorMatches(p, q)
    && ChipsetMatches(p, q)
    && LoaderMatches(p, q)
    && (q.bootMode.Unknown? || q.bootMode in p.bootModes)
    && (q.protocol.Unknown? || HasProtocol(p, q.protocol))
    && InBounds(p.version, q.minVersion, q.maxVersion)
    && CapabilityMatches(p, q)
    && TagMatches(p, q)
    && (q.state.Unknown? || p.state == q.state)
    && (q.origin.Unknown? || p.origin == q.origin)
  }

  // ----- what the search means -----

  const SMALL: string := "abcdefghijklmnopqrstuvwxyz"
  const CAPITAL: string := "ABCDEFGHIJKLMNOPQRSTUVWXYZ"

  /** The same letter of the alphabet, one capital and one small. */
  predicate OtherCase(c: char, d: char) {
    exists k :: 0 <= k < 26 && ((c == SMALL[k] && d == CAPITAL[k]) || (c == CAPITAL[k] && d == SMALL[k]))
  }

  predicate Alike(a: string, b: string, caseSensitive: bool) {
    |a| == |b| && forall i :: 0 <= i < |a| ==> a[i] == b[i] || (!caseSensitive && OtherCase(a[i], b[i]))
  }

  /** Some part of the text reads like the query. */
  ghost predicate Contains(text: string, query: string, caseSensitive: bool) {
    exists a, b, c :: Joins(text, a, b, c) && Alike(b, query, caseSensitive)
  }

  /** What the source tests: an empty text passes for every query. */
  ghost predicate Passes(text: string, query: string, caseSensitive: bool) {
    text == "" || Contains(text, query, caseSensitive)
  }

  ghost predicate PassesEither(kv: (string, string), query: string, caseSensitive: bool) {
    Passes(kv.0, query, caseSensitive) || Passes(kv.1, query, caseSensitive)
  }

  ghost predicate TextMeets(p: Metadata, q: Query) {
    q.searchText != "" ==>
      || Passes(p.packageId, q.searchText, q.caseSensitive)
      || Passes(p.name, q.searchText, q.caseSensitive)
      || Passes(p.description, q.searchText, q.caseSensitive)
      || Passes(p.vendor, q.searchText, q.caseSensitive)
  }

  ghost predicate ChipsetMeets(p: Metadata, q: Query) {
    q.chipset.vendor != "" || q.chipset.family != "" ==>
      exists i :: 0 <= i < |p.chipsets| &&
        (q.chipset.vendor != "" ==> Alike(p.chipsets[i].vendor, q.chipset.vendor, q.caseSensitive)) &&
        (q.chipset.family != "" ==> Alike(p.chipsets[i].family, q.chipset.family, q.caseSensitive))
  }

  ghost predicate LoaderMeets(p: Metadata, q: Query) {
    q.loaderName != "" ==>
      exists i :: 0 <= i < |p.loaders| &&
        (Alike(p.loaders[i].loaderId, q.loaderName, q.caseSensitive) ||
         Alike(p.loaders[i].name, q.loaderName, q.caseSensitive))
  }

  ghost predicate VersionMeets(p: Metadata, q: Query) {
    && (Number(q.minVersion) != 0 ==> Number(p.version) >= Number(q.minVersion))
    && (Number(q.maxVersion) != 0 ==> Number(p.version) <= Number(q.maxVersion))
  }

  ghost predicate CapabilityMeets(p: Metadata, q: Query) {
    q.capability != "" ==>
      || (exists i, j :: 0 <= i < |p.protocols| && 0 <= j < |p.protocols[i].properties| &&
                         PassesEither(p.protocols[i].properties[j], q.capability, q.caseSensitive))
      || (exists j :: 0 <= j < |p.vendorProperties| &&
                      PassesEither(p.vendorProperties[j], q.capability, q.caseSensitive))
  }

  ghost predicate ListsMeet(p: Metadata, q: Query) {
    && (q.bootMode != BootMode.Unknown ==> exists i :: 0 <= i < |p.bootModes| && p.bootModes[i] == q.bootMode)
    && (q.protocol != Protocol.Unknown ==> exists i :: 0 <= i < |p.protocols| && p.protocols[i].kind == q.protocol)
    && (q.tag != "" ==> exists i :: 0 <= i < |p.tags| && Alike(p.tags[i], q.tag, q.caseSensitive))
  }

  /** Every field of the query that is set is met by the package. */
  ghost predicate Meets(p: Metadata, q: Query) {
    && TextMeets(p, q)
    && (q.vendor != Vendor.Unknown ==> Alike(p.vendor, VendorName(q.vendor), q.caseSensitive))
    && ChipsetMeets(p, q)
    && LoaderMeets(p, q)
    && ListsMeet(p, q)
    && VersionMeets(p, q)
    && CapabilityMeets(p, q)
    && (q.state != State.Unknown ==> p.state == q.state)
    && (q.origin != Origin.Unknown ==> p.origin == q.origin)
  }

  lemma Letters(k: nat)
    requires k < 26
    ensures SMALL[k] == 'a' + k as char && CAPITAL[k] == 'A' + k as char
  {
  }

  lemma LowerIff(c: char, d: char)
    ensures Lower(c) == Lower(d) <==> c == d || OtherCase(c, d)
  {
    if OtherCase(c, d) {
      var k: nat :| k < 26 && ((c == SMALL[k] && d == CAPITAL[k]) || (c == CAPITAL[k] && d == SMALL[k]));
      Letters(k);
    } else if Lower(c) == Lower(d) && c != d {
      var k := (if 'a' <= c <= 'z' then c as int - 'a' as int else d as int - 'a' as int);
      Letters(k);
      assert false;
    }
  }

  lemma SameIff(a: string, b: string, caseSensitive: bool)
    ensures Same(a, b, caseSensitive) <==> Alike(a, b, caseSensitive)
  {
    hide Lower, OtherCase;
    if |a| == |b| {
      forall i | 0 <= i < |a|
        ensures Lower(a[i]) == Lower(b[i]) <==> a[i] == b[i] || OtherCase(a[i], b[i])
      {
        LowerIff(a[i], b[i]);
      }
    }
  }

  lemma SameLength(a: string, b: string, caseSensitive: bool)
    requires Alike(a, b, caseSensitive)
    ensures |a| == |b|
  {
  }

  lemma FoundPasses(text: string, query: string, caseSensitive: bool, i: nat)
    requires OccursAt(text, i, query, caseSensitive)
    ensures Contains(text, query, caseSensitive)
  {
    hide Same, Alike, Joins;
    var end := i + |query|;
    SameIff(text[i..end], query, caseSensitive);
    Joined(text[..i], text[i..end], text[end..]);
    assert text == text[..i] + text[i..end] + text[end..];
  }

  lemma PartFound(text: string, query: string, caseSensitive: bool)
    requires Contains(text, query, caseSensitive) && query != ""
    ensures exists i: nat :: i < |text| && OccursAt(text, i, query, caseSensitive)
  {
    hide Same, Alike;
    var a, b, c :| Joins(text, a, b, c) && Alike(b, query, caseSensitive);
    SameIff(b, query, caseSensitive);
    SameLength(b, query, caseSensitive);
    assert text[|a|..|a| + |b|] == b;
    assert OccursAt(text, |a|, query, caseSensitive);
  }

  lemma PassesIff(text: string, query: string, caseSensitive: bool)
    ensures ContainsText(text, query, caseSensitive) <==> Passes(text, query, caseSensitive)
  {
    hide OccursAt, Contains;
    if query == "" {
      assert OccursAt(text, 0, query, caseSensitive) by { hide *; EmptyOccurs(text, caseSensitive); }
      FoundPasses(text, query, caseSensitive, 0);
    } else if text != "" {
      if ContainsText(text, query, caseSensitive) {
        var i: nat :| i < |text| && OccursAt(text, i, query, caseSensitive);
        FoundPasses(text, query, caseSensitive, i);
      }
      if Contains(text, query, caseSensitive) {
        PartFound(text, query, caseSensitive);
      }
    }
  }

  lemma EmptyOccurs(text: string, caseSensitive: bool)
    ensures OccursAt(text, 0, "", caseSensitive)
  {
    assert text[0..0] == "";
  }

  lemma TextIff(p: Metadata, q: Query)
    ensures TextMatches(p, q) <==> TextMeets(p, q)
  {
    hide ContainsText, Passes;
    PassesIff(p.packageId, q.searchText, q.caseSensitive);
    PassesIff(p.name, q.searchText, q.caseSensitive);
    PassesIff(p.description, q.searchText, q.caseSensitive);
    PassesIff(p.vendor, q.searchText, q.caseSensitive);
  }

  lemma ChipsetIff(p: Metadata, q: Query)
    ensures ChipsetMatches(p, q) <==> ChipsetMeets(p, q)
  {
    forall i | 0 <= i < |p.chipsets|
      ensures p.chipsets[i] in p.chipsets
      ensures ChipsetFits(p.chipsets[i], q) <==>
              (q.chipset.vendor != "" ==> Alike(p.chipsets[i].vendor, q.chipset.vendor, q.caseSensitive)) &&
              (q.chipset.family != "" ==> Alike(p.chipsets[i].family, q.chipset.family, q.caseSensitive))
    {
      SameIff(p.chipsets[i].vendor, q.chipset.vendor, q.caseSensitive);
      SameIff(p.chipsets[i].family, q.chipset.family, q.caseSensitive);
    }
    hide Same, Alike, ChipsetFits;
  }

  lemma LoaderIff(p: Metadata, q: Query)
    ensures LoaderMatches(p, q) <==> LoaderMeets(p, q)
  {
    forall i | 0 <= i < |p.loaders|
      ensures p.loaders[i] in p.loaders
      ensures LoaderFits(p.loaders[i], q) <==>
              Alike(p.loaders[i].loaderId, q.loaderName, q.caseSensitive) ||
              Alike(p.loaders[i].name, q.loaderName, q.caseSensitive)
    {
      SameIff(p.loaders[i].loaderId, q.loaderName, q.caseSensitive);
      SameIff(p.loaders[i].name, q.loaderName, q.caseSensitive);
    }
    hide Same, Alike, LoaderFits;
  }

  lemma PropertiesIff(properties: seq<(string, string)>, capability: string, caseSensitive: bool)
    ensures HasCapability(properties, capability, caseSensitive) <==>
            exists j :: 0 <= j < |properties| && PassesEither(properties[j], capability, caseSensitive)
  {
    hide ContainsText, Passes;
    forall kv | kv in properties
      ensures ContainsText(kv.0, capability, caseSensitive) <==> Passes(kv.0, capability, caseSensitive)
      ensures ContainsText(kv.1, capability, caseSensitive) <==> Passes(kv.1, capability, caseSensitive)
    {
      PassesIff(kv.0, capability, caseSensitive);
      PassesIff(kv.1, capability, caseSensitive);
    }
  }

  lemma CapabilityIff(p: Metadata, q: Query)
    ensures CapabilityMatches(p, q) <==> CapabilityMeets(p, q)
  {
    hide HasCapability, PassesEither;
    PropertiesIff(p.vendorProperties, q.capability, q.caseSensitive);
    forall i | 0 <= i < |p.protocols|
      ensures HasCapability(p.protocols[i].properties, q.capability, q.caseSensitive) <==>
              exists j :: 0 <= j < |p.protocols[i].properties| &&
                          PassesEither(p.protocols[i].properties[j], q.capability, q.caseSensitive)
    {
      PropertiesIff(p.protocols[i].properties, q.capability, q.caseSensitive);
    }
  }

  lemma ListsIff(p: Metadata, q: Query)
    ensures ListsMeet(p, q) <==>
            && (q.bootMode.Unknown? || q.bootMode in p.bootModes)
            && (q.protocol.Unknown? || HasProtocol(p, q.protocol))
            && TagMatches(p, q)
  {
    hide Same, Alike;
    forall t | t in p.tags
      ensures Same(t, q.tag, q.caseSensitive) <==> Alike(t, q.tag, q.caseSensitive)
    {
      SameIff(t, q.tag, q.caseSensitive);
    }
  }

  lemma VersionIff(p: Metadata, q: Query)
    ensures InBounds(p.version, q.minVersion, q.maxVersion) <==> VersionMeets(p, q)
  {
    hide Version.Less, Version.IsBound, Number;
    OrderIsNumeric(p.version, q.minVersion);
    OrderIsNumeric(q.minVersion, q.minVersion);
    OrderIsNumeric(q.maxVersion, p.version);
  }

  /** The search's test, field by field. */
  lemma MatchesIff(p: Metadata, q: Query)
    ensures MatchesQuery(p, q) <==> Meets(p, q)
  {
    hide Same, Alike, TextMatches, TextMeets, ChipsetMatches, ChipsetMeets, LoaderMatches, LoaderMeets, InBounds,
      VersionMeets, CapabilityMatches, CapabilityMeets, ListsMeet, TagMatches, HasProtocol, VendorName;
    TextIff(p, q);
    SameIff(p.vendor, VendorName(q.vendor), q.caseSensitive);
    ChipsetIff(p, q);
    LoaderIff(p, q);
    ListsIff(p, q);
    VersionIff(p, q);
    CapabilityIff(p, q);
  }

  /** A set search text is trusted exactly when some field really holds it or none of the four is empty. */
  lemma SearchTextTrustedIff(p: Metadata, q: Query)
    requires q.searchText != ""
    ensures (TextMeets(p, q) <==>
             exists f :: f in [p.packageId, p.name, p.description, p.vendor] &&
                         Contains(f, q.searchText, q.caseSensitive))
       <==> (exists f :: f in [p.packageId, p.name, p.description, p.vendor] &&
                         Contains(f, q.searchText, q.caseSensitive))
            || "" !in [p.packageId, p.name, p.description, p.vendor]
  {
    hide Contains;
  }
}
