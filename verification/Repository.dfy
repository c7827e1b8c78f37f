/** DSPRepository: scanning, the rebuilt lookup indexes, and the linear search they must agree with. */
module Repository {
  import opened Discovery
  import opened PackageQuery
  import opened RepositoryIndex
  import opened PackageTypes
  import Strings
  import opened Sequences
  import opened Wrappers

  type Packages = map<string, Metadata>

  function Found(packages: Packages, q: Query): set<string> {
    set id | id in packages && MatchesQuery(packages[id], q)
  }

  lemma FoundMeet(packages: Packages, q: Query)
    ensures forall id :: id in Found(packages, q) <==> id in packages && Meets(packages[id], q)
  {
    hide MatchesQuery, Meets;
    forall id | id in packages
      ensures id in Found(packages, q) <==> Meets(packages[id], q)
    {
      MatchesIff(packages[id], q);
    }
  }

  // ----- what the indexes are built from -----

  datatype Field = Vendors | Protocols | BootModes | Loaders | Origins | LoaderIds | ChipsetNames

  function KeysOf(f: Field, p: Metadata): seq<string> {
    match f
    case Vendors => VendorKey(p)
    case Protocols => ProtocolKeys(p)
    case BootModes => BootModeKeys(p)
    case Loaders => LoaderKeys(p)
    case Origins => OriginKey(p)
    case LoaderIds => seq(|p.loaders|, i requires 0 <= i < |p.loaders| => p.loaders[i].loaderId)
    case ChipsetNames => seq(|p.chipsets|, i requires 0 <= i < |p.chipsets| => p.chipsets[i].ToString())
  }

  /** What the flat lists collect; a vendor record counts if it has a name. */
  datatype Part = BootModeParts | TransportParts | ProtocolParts | VendorParts

  function CountOf(f: Part, p: Metadata): nat {
    match f
    case BootModeParts => |p.bootModes|
    case TransportParts => |p.transports|
    case ProtocolParts => |p.protocols|
    case VendorParts => if p.vendorName == "" then 0 else 1
  }

  function CountsBy(f: Part, packages: Packages): Counts {
    map id | id in packages :: CountOf(f, packages[id])
  }

  function KeysBy(f: Field, packages: Packages): Keys {
    map id | id in packages :: KeysOf(f, packages[id])
  }

  function VendorKey(p: Metadata): seq<string> {
    [if p.vendor == "" then "Unknown" else p.vendor]
  }

  function ProtocolKeys(p: Metadata): seq<string> {
    seq(|p.protocols|, i requires 0 <= i < |p.protocols| => ProtocolName(p.protocols[i].kind))
  }

  function BootModeKeys(p: Metadata): seq<string> {
    seq(|p.bootModes|, i requires 0 <= i < |p.bootModes| => BootModeName(p.bootModes[i]))
  }

  function OriginKey(p: Metadata): seq<string> {
    [OriginName(p.origin)]
  }

  /** A loader is found by its display name, unless that is empty, and by its compatible vendors. */
  function NamesOf(l: Loader): seq<string> {
    (if l.name == "" then [] else [l.name]) + l.compatibleVendors
  }

  function NamesOfAll(loaders: seq<Loader>): seq<string> {
    if loaders == [] then [] else NamesOf(loaders[0]) + NamesOfAll(loaders[1..])
  }

  function LoaderKeys(p: Metadata): seq<string> {
    NamesOfAll(p.loaders)
  }

  // ----- lookups against the search -----

  const ANY: Version := Version(0, 0, 0)

  /** What a default-constructed DSPVersion holds. */
  const FIRST: Version := Version(1, 0, 0)

  /** A query with every field but the version bounds and case sensitivity at its default. */
  function Blank(min: Version, max: Version, caseSensitive: bool): Query {
    Query("", Vendor.Unknown, ChipsetId("", "", ""), "", BootMode.Unknown, Protocol.Unknown, min, max, "", "",
          State.Unknown, Origin.Unknown, caseSensitive)
  }

  function DefaultQuery(): Query {
    Blank(FIRST, FIRST, false)
  }

  function ByKey(f: Field, packages: Packages, k: string): set<string> {
    set id | id in packages && k in KeysOf(f, packages[id])
  }

  function ByProtocolSpec(packages: Packages, kind: Protocol): set<string> {
    ByKey(Protocols, packages, ProtocolName(kind))
  }

  function ByBootModeSpec(packages: Packages, mode: BootMode): set<string> {
    ByKey(BootModes, packages, BootModeName(mode))
  }

  function ByOriginSpec(packages: Packages, origin: Origin): set<string> {
    ByKey(Origins, packages, OriginName(origin))
  }

  function ByVendorSpec(packages: Packages, vendor: Vendor): set<string> {
    ByKey(Vendors, packages, VendorName(vendor))
  }

  /** The loader is known under this text: its display name, or a vendor it is compatible with. */
  predicate Answers(l: Loader, k: string) {
    (l.name == k && k != "") || k in l.compatibleVendors
  }

  lemma FindByKey(index: Index, f: Field, packages: Packages, k: string)
    requires Indexes(index, KeysBy(f, packages))
    ensures Ids(Listed(index, k)) == ByKey(f, packages, k)
  {
    LookupIds(index, KeysBy(f, packages), k);
    hide Indexes, KeysOf, Ids, Listed;
  }

  predicate AllInBounds(packages: Packages, ids: set<string>, min: Version, max: Version) {
    forall id :: id in packages && id in ids ==> InBounds(packages[id].version, min, max)
  }

  lemma ProtocolLookup(packages: Packages, kind: Protocol, id: string)
    requires id in packages
    ensures ProtocolName(kind) in ProtocolKeys(packages[id]) <==> HasProtocol(packages[id], kind)
  {
    var p := packages[id];
    var keys := ProtocolKeys(packages[id]);
    hide ProtocolName;
    ProtocolRoundTrip(kind);
    if HasProtocol(p, kind) {
      var pr :| pr in p.protocols && pr.kind == kind;
      var i :| 0 <= i < |p.protocols| && p.protocols[i] == pr;
      assert keys[i] == ProtocolName(kind);
    }
    if ProtocolName(kind) in keys {
      var i :| 0 <= i < |keys| && keys[i] == ProtocolName(kind);
      ProtocolRoundTrip(p.protocols[i].kind);
    }
  }

  /** byProtocol of a named protocol and the search for it differ exactly by the version bounds of the query. */
  lemma ProtocolAgrees(packages: Packages, kind: Protocol, min: Version, max: Version, caseSensitive: bool)
    requires !kind.Unknown?
    ensures Found(packages, Blank(min, max, caseSensitive).(protocol := kind)) == ByProtocolSpec(packages, kind)
       <==> AllInBounds(packages, ByProtocolSpec(packages, kind), min, max)
  {
    var q := Blank(min, max, caseSensitive).(protocol := kind);
    hide ProtocolName, InBounds, HasProtocol, ProtocolKeys;
    forall id | id in packages
      ensures id in Found(packages, q) <==>
        id in ByProtocolSpec(packages, kind) && InBounds(packages[id].version, min, max)
    {
      ProtocolLookup(packages, kind, id);
    }
  }

  lemma BootModeLookup(packages: Packages, mode: BootMode, id: string)
    requires id in packages
    ensures BootModeName(mode) in BootModeKeys(packages[id]) <==>
            mode in packages[id].bootModes ||
            (!HasName(mode) && exists b :: b in packages[id].bootModes && !HasName(b))
  {
    var p := packages[id];
    var keys := BootModeKeys(packages[id]);
    hide BootModeName, HasName;
    BootModeRoundTrip(mode);
    forall i | 0 <= i < |p.bootModes|
      ensures keys[i] == BootModeName(mode) <==>
              p.bootModes[i] == mode || (!HasName(mode) && !HasName(p.bootModes[i]))
    {
      SameBootModeName(p.bootModes[i], mode);
    }
  }

  lemma SameBootModeName(a: BootMode, b: BootMode)
    ensures BootModeName(a) == BootModeName(b) <==> a == b || (!HasName(a) && !HasName(b))
  {
    hide BootModeName;
    BootModeRoundTrip(a);
    BootModeRoundTrip(b);
    assert BootMode.Unknown == BootModeOf("Unknown");
  }

  /** A mode without a name of its own shares the key "Unknown" with the other such modes. */
  ghost predicate NotConfused(packages: Packages, mode: BootMode) {
    HasName(mode) ||
    forall id, b :: id in packages && b in packages[id].bootModes && !HasName(b) ==> mode in packages[id].bootModes
  }

  lemma BootModeAgrees(packages: Packages, mode: BootMode, min: Version, max: Version, caseSensitive: bool)
    requires !mode.Unknown?
    ensures Found(packages, Blank(min, max, caseSensitive).(bootMode := mode)) == ByBootModeSpec(packages, mode)
       <==> NotConfused(packages, mode) && AllInBounds(packages, ByBootModeSpec(packages, mode), min, max)
  {
    var q := Blank(min, max, caseSensitive).(bootMode := mode);
    hide BootModeName, HasName, InBounds, BootModeKeys;
    forall id | id in packages
      ensures id in Found(packages, q) <==>
        mode in packages[id].bootModes && InBounds(packages[id].version, min, max)
      ensures id in ByBootModeSpec(packages, mode) <==>
        mode in packages[id].bootModes ||
        (!HasName(mode) && exists b :: b in packages[id].bootModes && !HasName(b))
    {
      BootModeLookup(packages, mode, id);
    }
  }

  /** A repository of one package in mode Normal, asked for mode Download: the lookup finds the package, the
      search does not. */
  lemma UnnamedModesConfused(p: Metadata)
    requires p.bootModes == [BootMode.Normal]
    ensures var packages := map[p.packageId := p];
            && p.packageId in ByBootModeSpec(packages, BootMode.Download)
            && Found(packages, Blank(ANY, ANY, true).(bootMode := BootMode.Download)) == {}
  {
    var packages := map[p.packageId := p];
    assert !HasName(BootMode.Normal) && !HasName(BootMode.Download) && BootMode.Normal in p.bootModes;
    BootModeLookup(packages, BootMode.Download, p.packageId);
    hide BootModeKeys, InBounds, BootModeName, HasName;
  }

  lemma OriginAgrees(packages: Packages, origin: Origin, min: Version, max: Version, caseSensitive: bool)
    requires !origin.Unknown?
    ensures Found(packages, Blank(min, max, caseSensitive).(origin := origin)) == ByOriginSpec(packages, origin)
       <==> AllInBounds(packages, ByOriginSpec(packages, origin), min, max)
  {
    var q := Blank(min, max, caseSensitive).(origin := origin);
    hide OriginName, InBounds;
    forall id | id in packages
      ensures id in Found(packages, q) <==>
        id in ByOriginSpec(packages, origin) && InBounds(packages[id].version, min, max)
    {
      OriginNamesDistinct(packages[id].origin, origin);
    }
  }

  /** byVendor is the case-sensitive search; a search that ignores case finds at least as much. */
  lemma VendorAgrees(packages: Packages, vendor: Vendor, min: Version, max: Version)
    requires !vendor.Unknown?
    ensures Found(packages, Blank(min, max, true).(vendor := vendor)) == ByVendorSpec(packages, vendor)
       <==> AllInBounds(packages, ByVendorSpec(packages, vendor), min, max)
    ensures Found(packages, Blank(min, max, true).(vendor := vendor))
         <= Found(packages, Blank(min, max, false).(vendor := vendor))
  {
    var q := Blank(min, max, true).(vendor := vendor);
    VendorNamed(vendor);
    hide VendorName, InBounds;
    forall id | id in packages
      ensures id in Found(packages, q) <==>
        id in ByVendorSpec(packages, vendor) && InBounds(packages[id].version, min, max)
    {
    }
  }

  lemma VendorNamed(vendor: Vendor)
    requires !vendor.Unknown?
    ensures VendorName(vendor) != "" && VendorName(vendor) != "Unknown"
  {
    hide VendorName;
    VendorRoundTrip(vendor);
    assert VendorOf("") == Vendor.Unknown && VendorOf("Unknown") == Vendor.Unknown;
  }

  /** The bounds of a default-constructed query admit version 1.0.0 and nothing else; bounds of 0.0.0 admit all. */
  lemma DefaultBounds(v: Version)
    ensures InBounds(v, FIRST, FIRST) <==> v == FIRST
    ensures InBounds(v, ANY, ANY)
  {
  }

  /** So a default query for a protocol misses packages that byProtocol finds. */
  lemma DefaultQueryMisses(p: Metadata, kind: Protocol)
    requires !kind.Unknown? && HasProtocol(p, kind) && p.version != FIRST
    ensures var packages := map[p.packageId := p];
            && p.packageId in ByProtocolSpec(packages, kind)
            && p.packageId !in Found(packages, DefaultQuery().(protocol := kind))
  {
    var packages := map[p.packageId := p];
    ProtocolLookup(packages, kind, p.packageId);
    DefaultBounds(p.version);
    hide ProtocolName, InBounds, HasProtocol, ProtocolKeys;
  }

  // ----- scanning -----

  /** Directory entries as loaded, in order; None is a package that failed to load. */
  function Scanned(packages: Packages, entries: seq<Option<Metadata>>): Packages {
    if entries == [] then packages
    else
      var before := Scanned(packages, entries[..|entries| - 1]);
      var e := entries[|entries| - 1];
      if e.Some? && e.value.packageId != "" then before[e.value.packageId := e.value] else before
  }

  predicate Keyed(packages: Packages) {
    forall id :: id in packages ==> packages[id].packageId == id && id != ""
  }

  predicate NobodyNames(entries: seq<Option<Metadata>>, id: string) {
    forall i :: 0 <= i < |entries| && entries[i].Some? ==> entries[i].value.packageId != id
  }

  /** An id that no entry names keeps its package or stays absent. */
  lemma {:induction false} UnnamedKept(packages: Packages, entries: seq<Option<Metadata>>, id: string)
    requires NobodyNames(entries, id)
    ensures id in Scanned(packages, entries) <==> id in packages
    ensures id in packages ==> Scanned(packages, entries)[id] == packages[id]
  {
    if entries != [] {
      UnnamedKept(packages, entries[..|entries| - 1], id);
    }
  }

  /** The last entry that names an id wins. */
  lemma LastEntryWins(packages: Packages, before: seq<Option<Metadata>>, p: Metadata, after: seq<Option<Metadata>>)
    requires p.packageId != "" && NobodyNames(after, p.packageId)
    ensures var s := Scanned(packages, before + [Some(p)] + after);
            p.packageId in s && s[p.packageId] == p
    decreases |after|
  {
    var entries := before + [Some(p)] + after;
    if after == [] {
      assert entries[..|entries| - 1] == before;
    } else {
      var front := after[..|after| - 1];
      assert entries[..|entries| - 1] == before + [Some(p)] + front;
      LastEntryWins(packages, before, p, front);
      assert entries[|entries| - 1] == after[|after| - 1];
    }
  }

  function Restrict(packages: Packages, ids: set<string>): Packages {
    map id | id in packages && id in ids :: packages[id]
  }

  lemma RestrictOneMore(packages: Packages, todo: set<string>, id: string)
    requires id in todo && todo <= packages.Keys
    ensures id !in Restrict(packages, packages.Keys - todo)
    ensures Restrict(packages, packages.Keys - (todo - {id})) ==
            Restrict(packages, packages.Keys - todo)[id := packages[id]]
  {
  }

  ghost predicate ListsOnce(ids: seq<string>, packages: Packages) {
    (forall id :: id in ids <==> id in packages) && Distinct(ids)
  }

  lemma ListOneMore(ids: seq<string>, packages: Packages, id: string, p: Metadata)
    requires ListsOnce(ids, packages) && id !in packages
    ensures ListsOnce(ids + [id], packages[id := p])
  {
  }

  method ExtendIndex(index: Index, f: Field, ghost done: Packages, id: string, p: Metadata)
    returns (out: Index)
    requires id !in done && Indexes(index, KeysBy(f, done))
    ensures Indexes(out, KeysBy(f, done[id := p]))
  {
    hide Indexes;
    OneMore(f, done, id, p);
    out := AddKeys(index, KeysBy(f, done), id, KeysOf(f, p));
  }

  method ExtendList(list: seq<Ref>, f: Part, ghost done: Packages, id: string, p: Metadata) returns (out: seq<Ref>)
    requires id !in done && ListsPlaces(list, CountsBy(f, done))
    ensures ListsPlaces(out, CountsBy(f, done[id := p]))
  {
    hide ListsPlaces;
    OneMoreCount(f, done, id, p);
    out := AddPlaces(list, CountsBy(f, done), id, CountOf(f, p));
  }

  class Repository {
    var packages: Packages
    var statistics: seq<string>
    var byVendor: Index
    var byProtocol: Index
    var byBootMode: Index
    var byLoader: Index
    var byOrigin: Index
    var allLoaders: Index
    var allChipsets: Index
    var allBootModes: seq<Ref>
    var allTransports: seq<Ref>
    var allProtocols: seq<Ref>
    var allVendors: seq<Ref>

    ghost predicate LookupsOf(p: Packages)
      reads this`byVendor, this`byProtocol, this`byBootMode, this`byLoader, this`byOrigin
    {
      && Indexes(byVendor, KeysBy(Vendors, p))
      && Indexes(byProtocol, KeysBy(Protocols, p))
      && Indexes(byBootMode, KeysBy(BootModes, p))
      && Indexes(byLoader, KeysBy(Loaders, p))
      && Indexes(byOrigin, KeysBy(Origins, p))
    }

    ghost predicate PartsOf(p: Packages)
      reads this`allLoaders, this`allChipsets
    {
      && Indexes(allLoaders, KeysBy(LoaderIds, p))
      && Indexes(allChipsets, KeysBy(ChipsetNames, p))
    }

    ghost predicate ListsOf(p: Packages)
      reads this`allBootModes, this`allTransports, this`allProtocols, this`allVendors
    {
      && ListsPlaces(allBootModes, CountsBy(BootModeParts, p))
      && ListsPlaces(allTransports, CountsBy(TransportParts, p))
      && ListsPlaces(allProtocols, CountsBy(ProtocolParts, p))
      && ListsPlaces(allVendors, CountsBy(VendorParts, p))
    }

    /** The indexes and lists are those of the packages p. */
    ghost predicate Indexed(p: Packages)
      reads this`statistics, this`byVendor, this`byProtocol, this`byBootMode, this`byLoader, this`byOrigin
      reads this`allLoaders, this`allChipsets, this`allBootModes, this`allTransports, this`allProtocols, this`allVendors
    {
      ListsOnce(statistics, p) && LookupsOf(p) && PartsOf(p) && ListsOf(p)
    }

    ghost predicate Valid()
      reads this
    {
      Keyed(packages) && Indexed(packages)
    }

    constructor ()
      ensures Valid() && packages == map[]
    {
      packages, statistics := map[], [];
      byVendor, byProtocol, byBootMode, byLoader, byOrigin := map[], map[], map[], map[], map[];
      allLoaders, allChipsets := map[], map[];
      allBootModes, allTransports, allProtocols, allVendors := [], [], [], [];
      new;
      EmptyKeys();
      hide Indexes, ListsPlaces, KeysBy, CountsBy;
    }

    method ScanDirectory(entries: seq<Option<Metadata>>)
      requires Keyed(packages)
      modifies this`packages
      ensures packages == Scanned(old(packages), entries) && Keyed(packages)
    {
      assert entries[..|entries|] == entries;
      for i := 0 to |entries|
        invariant packages == Scanned(old(packages), entries[..i]) && Keyed(packages)
      {
        assert entries[..i + 1][..i] == entries[..i];
        if entries[i].Some? && entries[i].value.packageId != "" {
          packages := packages[entries[i].value.packageId := entries[i].value];
        }
      }
    }

    method ClearIndexes()
      modifies this`statistics, this`byVendor, this`byProtocol, this`byBootMode, this`byLoader, this`byOrigin
      modifies this`allLoaders, this`allChipsets, this`allBootModes, this`allTransports, this`allProtocols, this`allVendors
      ensures Indexed(map[])
    {
      statistics := [];
      byVendor, byProtocol, byBootMode, byLoader, byOrigin := map[], map[], map[], map[], map[];
      allLoaders, allChipsets := map[], map[];
      allBootModes, allTransports, allProtocols, allVendors := [], [], [], [];
      EmptyKeys();
      hide Indexes, ListsPlaces, KeysBy, CountsBy;
    }

    method IndexLookups(ghost done: Packages, id: string)
      requires id in packages && id !in done && LookupsOf(done)
      modifies this`byVendor, this`byProtocol, this`byBootMode, this`byLoader, this`byOrigin
      ensures LookupsOf(done[id := packages[id]])
    {
      hide Indexes, KeysBy;
      var p := packages[id];
      var v := ExtendIndex(byVendor, Vendors, done, id, p);
      var pr := ExtendIndex(byProtocol, Protocols, done, id, p);
      var bm := ExtendIndex(byBootMode, BootModes, done, id, p);
      var ld := ExtendIndex(byLoader, Loaders, done, id, p);
      var o := ExtendIndex(byOrigin, Origins, done, id, p);
      byVendor, byProtocol, byBootMode, byLoader, byOrigin := v, pr, bm, ld, o;
    }

    method IndexParts(ghost done: Packages, id: string)
      requires id in packages && id !in done && PartsOf(done)
      modifies this`allLoaders, this`allChipsets
      ensures PartsOf(done[id := packages[id]])
    {
      hide Indexes, KeysBy;
      var ld := ExtendIndex(allLoaders, LoaderIds, done, id, packages[id]);
      var cs := ExtendIndex(allChipsets, ChipsetNames, done, id, packages[id]);
      allLoaders, allChipsets := ld, cs;
    }

    method IndexLists(ghost done: Packages, id: string)
      requires id in packages && id !in done && ListsOf(done)
      modifies this`allBootModes, this`allTransports, this`allProtocols, this`allVendors
      ensures ListsOf(done[id := packages[id]])
    {
      hide ListsPlaces, CountsBy;
      var p := packages[id];
      var bm := ExtendList(allBootModes, BootModeParts, done, id, p);
      var tp := ExtendList(allTransports, TransportParts, done, id, p);
      var pr := ExtendList(allProtocols, ProtocolParts, done, id, p);
      var v := ExtendList(allVendors, VendorParts, done, id, p);
      allBootModes, allTransports, allProtocols, allVendors := bm, tp, pr, v;
    }

    /** The body of the rebuilding loop: one more package. */
    method IndexPackage(ghost done: Packages, id: string)
      requires id in packages && id !in done
      requires ListsOnce(statistics, done) && LookupsOf(done) && PartsOf(done) && ListsOf(done)
      modifies this`statistics, this`byVendor, this`byProtocol, this`byBootMode, this`byLoader, this`byOrigin
      modifies this`allLoaders, this`allChipsets, this`allBootModes, this`allTransports, this`allProtocols, this`allVendors
      ensures var next := done[id := packages[id]];
              ListsOnce(statistics, next) && LookupsOf(next) && PartsOf(next) && ListsOf(next)
    {
      hide *;
      ListOneMore(statistics, done, id, packages[id]);
      statistics := statistics + [id];
      IndexLookups(done, id);
      IndexParts(done, id);
      IndexLists(done, id);
    }

    /** The packages are taken in an arbitrary order, as a hash map yields them. */
    method RebuildIndex()
      requires Keyed(packages)
      modifies this`statistics, this`byVendor, this`byProtocol, this`byBootMode, this`byLoader, this`byOrigin
      modifies this`allLoaders, this`allChipsets, this`allBootModes, this`allTransports, this`allProtocols, this`allVendors
      ensures Valid()
    {
      ClearIndexes();
      var todo := packages.Keys;
      ghost var done: Packages := map[];
      while todo != {}
        invariant todo <= packages.Keys
        invariant done == Restrict(packages, packages.Keys - todo)
        invariant ListsOnce(statistics, done) && LookupsOf(done) && PartsOf(done) && ListsOf(done)
      {
        hide *;
        var id :| id in todo;
        RestrictOneMore(packages, todo, id);
        IndexPackage(done, id);
        done := done[id := packages[id]];
        todo := todo - {id};
      }
      assert done == packages;
      hide *;
    }

    method ScanPath(entries: seq<Option<Metadata>>)
      requires Valid()
      modifies this
      ensures Valid() && packages == Scanned(old(packages), entries)
    {
      ScanDirectory(entries);
      RebuildIndex();
    }

    /** System, user and portable directories; an unset path has no entries. */
    method Scan(system: seq<Option<Metadata>>, user: seq<Option<Metadata>>, portable: seq<Option<Metadata>>)
      requires Valid()
      modifies this
      ensures Valid() && packages == Scanned(Scanned(Scanned(map[], system), user), portable)
    {
      packages := map[];
      ScanDirectory(system);
      ScanDirectory(user);
      ScanDirectory(portable);
      RebuildIndex();
    }

    method Clear()
      requires Valid()
      modifies this
      ensures Valid() && packages == map[]
    {
      packages := map[];
      ClearIndexes();
    }

    method ByProtocol(kind: Protocol) returns (r: seq<Ref>)
      requires Valid()
      ensures Ids(r) == ByProtocolSpec(packages, kind)
    {
      FindByKey(byProtocol, Protocols, packages, ProtocolName(kind));
      hide Ids, Listed, ByKey;
      r := Listed(byProtocol, ProtocolName(kind));
    }

    method ByBootMode(mode: BootMode) returns (r: seq<Ref>)
      requires Valid()
      ensures Ids(r) == ByBootModeSpec(packages, mode)
    {
      FindByKey(byBootMode, BootModes, packages, BootModeName(mode));
      hide Ids, Listed, ByKey;
      r := Listed(byBootMode, BootModeName(mode));
    }

    method ByOrigin(origin: Origin) returns (r: seq<Ref>)
      requires Valid()
      ensures Ids(r) == ByOriginSpec(packages, origin)
    {
      FindByKey(byOrigin, Origins, packages, OriginName(origin));
      hide Ids, Listed, ByKey;
      r := Listed(byOrigin, OriginName(origin));
    }

    method ByVendor(vendor: Vendor) returns (r: seq<Ref>)
      requires Valid()
      ensures Ids(r) == ByVendorSpec(packages, vendor)
    {
      FindByKey(byVendor, Vendors, packages, VendorName(vendor));
      hide Ids, Listed, ByKey;
      r := Listed(byVendor, VendorName(vendor));
    }

    /** The packages with a loader of that display name or made for a vendor of that name. */
    method ByLoader(name: string) returns (r: seq<Ref>)
      requires Valid()
      ensures forall id :: id in Ids(r) <==>
                id in packages &&
                exists i :: 0 <= i < |packages[id].loaders| && Answers(packages[id].loaders[i], name)
    {
      FindByKey(byLoader, Loaders, packages, name);
      hide Ids, Listed, Answers, NamesOfAll;
      r := Listed(byLoader, name);
      forall id | id in packages
        ensures name in NamesOfAll(packages[id].loaders) <==>
                exists i :: 0 <= i < |packages[id].loaders| && Answers(packages[id].loaders[i], name)
      {
        NamedByLoader(packages[id].loaders, name);
      }
    }

    /** Every boot mode record of every package, once. */
    method AllBootModes() returns (r: seq<Ref>)
      requires Valid()
      ensures Distinct(r)
      ensures forall x :: x in r <==> x.id in packages && x.position < |packages[x.id].bootModes|
    {
      ListedPlaces(allBootModes, BootModeParts, packages);
      hide Valid, Distinct, ListsPlaces, Indexes, KeysBy, CountsBy;
      r := allBootModes;
    }

    method AllTransports() returns (r: seq<Ref>)
      requires Valid()
      ensures Distinct(r)
      ensures forall x :: x in r <==> x.id in packages && x.position < |packages[x.id].transports|
    {
      ListedPlaces(allTransports, TransportParts, packages);
      hide Valid, Distinct, ListsPlaces, Indexes, KeysBy, CountsBy;
      r := allTransports;
    }

    method AllProtocols() returns (r: seq<Ref>)
      requires Valid()
      ensures Distinct(r)
      ensures forall x :: x in r <==> x.id in packages && x.position < |packages[x.id].protocols|
    {
      ListedPlaces(allProtocols, ProtocolParts, packages);
      hide Valid, Distinct, ListsPlaces, Indexes, KeysBy, CountsBy;
      r := allProtocols;
    }

    /** One vendor record for every package that names its vendor. */
    method AllVendors() returns (r: seq<Ref>)
      requires Valid()
      ensures Distinct(r)
      ensures forall x :: x in r <==> x.id in packages && x.position == 0 && packages[x.id].vendorName != ""
    {
      ListedVendors(allVendors, packages);
      hide *;
      r := allVendors;
    }

    /** The matching packages, once each, in order of their ids. */
    method Search(q: Query) returns (r: seq<string>)
      requires Valid()
      ensures Strings.Ascending(r)
      ensures forall id :: id in r <==> id in Found(packages, q)
      ensures forall id :: id in r <==> id in packages && Meets(packages[id], q)
    {
      r := [];
      var todo := packages.Keys;
      while todo != {}
        invariant todo <= packages.Keys
        invariant Strings.Ascending(r)
        invariant forall id :: id in r <==> id in Found(packages, q) && id !in todo
      {
        hide MatchesQuery;
        var id :| id in todo;
        if MatchesQuery(packages[id], q) {
          Strings.PlaceHas(r, id);
          Strings.PlaceAscending(r, id);
          r := Strings.Place(r, id);
        }
        todo := todo - {id};
      }
      FoundMeet(packages, q);
    }
  }

  lemma EmptyKeys()
    ensures forall f :: Indexes(map[], KeysBy(f, map[]))
    ensures forall f :: ListsPlaces([], CountsBy(f, map[]))
  {
    EmptyIndexes();
    hide Indexes, ListsPlaces;
    assert forall f :: KeysBy(f, map[]) == map[];
    assert forall f :: CountsBy(f, map[]) == map[];
  }

  lemma ListedPlaces(list: seq<Ref>, f: Part, packages: Packages)
    requires ListsPlaces(list, CountsBy(f, packages))
    ensures Distinct(list)
    ensures forall x :: x in list <==> x.id in packages && x.position < CountOf(f, packages[x.id])
  {
    hide Distinct, CountOf;
  }

  lemma ListedVendors(list: seq<Ref>, packages: Packages)
    requires ListsPlaces(list, CountsBy(VendorParts, packages))
    ensures Distinct(list)
    ensures forall x :: x in list <==> x.id in packages && x.position == 0 && packages[x.id].vendorName != ""
  {
    hide Distinct, ListsPlaces, CountsBy;
    ListedPlaces(list, VendorParts, packages);
  }

  lemma {:induction false} NamedByLoader(loaders: seq<Loader>, k: string)
    ensures k in NamesOfAll(loaders) <==> exists i :: 0 <= i < |loaders| && Answers(loaders[i], k)
  {
    if loaders != [] {
      var rest := loaders[1..];
      NamedByLoader(rest, k);
      assert k in NamesOf(loaders[0]) <==> Answers(loaders[0], k);
      hide NamesOf, Answers;
      if i :| 0 <= i < |rest| && Answers(rest[i], k) {
        assert loaders[i + 1] == rest[i];
      }
      if i :| 0 <= i < |loaders| && Answers(loaders[i], k) && i > 0 {
        assert rest[i - 1] == loaders[i];
      }
    }
  }

  lemma OneMoreCount(f: Part, done: Packages, id: string, p: Metadata)
    requires id !in done
    ensures CountsBy(f, done[id := p]) == CountsBy(f, done)[id := CountOf(f, p)]
    ensures id !in CountsBy(f, done)
  {
  }

  lemma OneMore(f: Field, done: Packages, id: string, p: Metadata)
    requires id !in done
    ensures KeysBy(f, done[id := p]) == KeysBy(f, done)[id := KeysOf(f, p)]
    ensures id !in KeysBy(f, done)
  {
  }
}
