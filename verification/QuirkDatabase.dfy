/** QuirkDatabase and QuirkResolver. A pointer to a stored quirk is modelled by its id. */
module QuirkDatabase {
  import opened Discovery
  import opened Quirks
  import opened Sequences

  // ----- registration -----

  /** A map insertion that keeps the quirk already stored under the id. */
  function Emplace(store: Store, q: Quirk): Store {
    if q.quirkId in store then store else store[q.quirkId := q]
  }

  /** The quirk a registration indexes: the stored one. */
  function Stored(store: Store, q: Quirk): Quirk {
    Emplace(store, q)[q.quirkId]
  }

  function RegisterAll(files: seq<Quirk>): Store {
    if files == [] then map[] else Emplace(RegisterAll(files[..|files| - 1]), files[|files| - 1])
  }

  /** The first file that uses an id wins. */
  lemma {:induction false} FirstFileWins(files: seq<Quirk>, i: nat)
    requires i < |files|
    requires forall j :: 0 <= j < i ==> files[j].quirkId != files[i].quirkId
    ensures files[i].quirkId in RegisterAll(files) && RegisterAll(files)[files[i].quirkId] == files[i]
    decreases |files|
  {
    var front := files[..|files| - 1];
    if i < |front| {
      FirstFileWins(front, i);
    } else {
      NotUsedNotStored(front, files[i].quirkId);
    }
  }

  lemma AppendFile(files: seq<Quirk>, i: nat)
    requires i < |files|
    ensures RegisterAll(files[..i + 1]) == Emplace(RegisterAll(files[..i]), files[i])
  {
    assert files[..i + 1][..i] == files[..i];
  }

  lemma {:induction false} NotUsedNotStored(files: seq<Quirk>, id: string)
    requires forall j :: 0 <= j < |files| ==> files[j].quirkId != id
    ensures id !in RegisterAll(files)
  {
    if files != [] {
      NotUsedNotStored(files[..|files| - 1], id);
    }
  }

  lemma KeyedGrows(store: Store, q: Quirk)
    requires Keyed(store)
    ensures Keyed(Emplace(store, q))
  {
  }

  // ----- the indexes: entry lists of multimaps, an id under a key exactly when its quirk says so -----

  predicate Keyed(store: Store) {
    forall id :: id in store ==> store[id].quirkId == id
  }

  ghost predicate VendorIndex(entries: seq<(Vendor, string)>, store: Store) {
    forall k, id :: (k, id) in entries <==> id in store && store[id].vendor == k
  }

  ghost predicate ProtocolIndex(entries: seq<(Protocol, string)>, store: Store) {
    forall k, id :: (k, id) in entries <==> id in store && store[id].protocol == k
  }

  ghost predicate BootModeIndex(entries: seq<(BootMode, string)>, store: Store) {
    forall k, id :: (k, id) in entries <==> id in store && store[id].bootMode == k
  }

  ghost predicate ScopeIndex(entries: seq<(Scope, string)>, store: Store) {
    forall k, id :: (k, id) in entries <==> id in store && store[id].scope == k
  }

  ghost predicate SeverityIndex(entries: seq<(Severity, string)>, store: Store) {
    forall k, id :: (k, id) in entries <==> id in store && store[id].severity == k
  }

  ghost predicate ActionIndex(entries: seq<(Action, string)>, store: Store) {
    forall k, id :: (k, id) in entries <==> id in store && store[id].action == k
  }

  ghost predicate ChipsetIndex(entries: seq<(string, string)>, store: Store) {
    forall k, id :: (k, id) in entries <==> id in store && UnderKey(store[id].chipset, k)
  }

  lemma VendorIndexGrows(entries: seq<(Vendor, string)>, store: Store, q: Quirk)
    requires VendorIndex(entries, store)
    ensures VendorIndex(entries + [(Stored(store, q).vendor, q.quirkId)], Emplace(store, q))
  {
    var out := entries + [(Stored(store, q).vendor, q.quirkId)];
    assert forall k, id :: (k, id) in out <==> (k, id) in entries || (k, id) == out[|entries|];
  }

  lemma ProtocolIndexGrows(entries: seq<(Protocol, string)>, store: Store, q: Quirk)
    requires ProtocolIndex(entries, store)
    ensures ProtocolIndex(entries + [(Stored(store, q).protocol, q.quirkId)], Emplace(store, q))
  {
    var out := entries + [(Stored(store, q).protocol, q.quirkId)];
    assert forall k, id :: (k, id) in out <==> (k, id) in entries || (k, id) == out[|entries|];
  }

  lemma BootModeIndexGrows(entries: seq<(BootMode, string)>, store: Store, q: Quirk)
    requires BootModeIndex(entries, store)
    ensures BootModeIndex(entries + [(Stored(store, q).bootMode, q.quirkId)], Emplace(store, q))
  {
    var out := entries + [(Stored(store, q).bootMode, q.quirkId)];
    assert forall k, id :: (k, id) in out <==> (k, id) in entries || (k, id) == out[|entries|];
  }

  lemma ScopeIndexGrows(entries: seq<(Scope, string)>, store: Store, q: Quirk)
    requires ScopeIndex(entries, store)
    ensures ScopeIndex(entries + [(Stored(store, q).scope, q.quirkId)], Emplace(store, q))
  {
    var out := entries + [(Stored(store, q).scope, q.quirkId)];
    assert forall k, id :: (k, id) in out <==> (k, id) in entries || (k, id) == out[|entries|];
  }

  lemma SeverityIndexGrows(entries: seq<(Severity, string)>, store: Store, q: Quirk)
    requires SeverityIndex(entries, store)
    ensures SeverityIndex(entries + [(Stored(store, q).severity, q.quirkId)], Emplace(store, q))
  {
    var out := entries + [(Stored(store, q).severity, q.quirkId)];
    assert forall k, id :: (k, id) in out <==> (k, id) in entries || (k, id) == out[|entries|];
  }

  lemma ActionIndexGrows(entries: seq<(Action, string)>, store: Store, q: Quirk)
    requires ActionIndex(entries, store)
    ensures ActionIndex(entries + [(Stored(store, q).action, q.quirkId)], Emplace(store, q))
  {
    var out := entries + [(Stored(store, q).action, q.quirkId)];
    assert forall k, id :: (k, id) in out <==> (k, id) in entries || (k, id) == out[|entries|];
  }

  function ChipsetEntries(q: Quirk, id: string): seq<(string, string)> {
    [(q.chipset.ToString(), id)] + (if q.chipset.vendor == "" then [] else [(q.chipset.vendor + "//", id)])
  }

  lemma ChipsetIndexGrows(entries: seq<(string, string)>, store: Store, q: Quirk)
    requires ChipsetIndex(entries, store)
    ensures ChipsetIndex(entries + ChipsetEntries(Stored(store, q), q.quirkId), Emplace(store, q))
  {
    var more := ChipsetEntries(Stored(store, q), q.quirkId);
    assert forall k, id :: (k, id) in entries + more <==> (k, id) in entries || (k, id) in more;
    assert forall k, id :: (k, id) in more <==> id == q.quirkId && UnderKey(Emplace(store, q)[id].chipset, k);
  }

  method Collect<K(==)>(entries: seq<(K, string)>, key: K) returns (r: seq<string>)
    ensures forall id :: id in r <==> (key, id) in entries
  {
    r := [];
    for i := 0 to |entries|
      invariant forall id :: id in r <==> (key, id) in entries[..i]
    {
      assert entries[..i + 1] == entries[..i] + [entries[i]];
      if entries[i].0 == key {
        r := r + [entries[i].1];
      }
    }
    assert entries[..|entries|] == entries;
  }

  ghost predicate PartialAmong(entries: seq<(string, string)>, store: Store, key: string, id: ChipsetId, x: string) {
    x in store && PartialMatch(store[x].chipset, id) && exists k :: (k, x) in entries && k != key
  }

  lemma PartialNext(entries: seq<(string, string)>, e: (string, string), store: Store, key: string, id: ChipsetId)
    requires e.1 in store
    ensures forall x :: PartialAmong(entries + [e], store, key, id, x) <==>
      PartialAmong(entries, store, key, id, x) ||
      (x == e.1 && e.0 != key && PartialMatch(store[x].chipset, id))
  {
    assert forall k, x :: (k, x) in entries + [e] <==> (k, x) in entries || (k, x) == e;
  }

  class Database {
    var quirks: Store
    var byVendor: seq<(Vendor, string)>
    var byChipset: seq<(string, string)>
    var byProtocol: seq<(Protocol, string)>
    var byBootMode: seq<(BootMode, string)>
    var byScope: seq<(Scope, string)>
    var bySeverity: seq<(Severity, string)>
    var byAction: seq<(Action, string)>
    var built: bool

    ghost predicate Valid()
      reads this`quirks, this`byVendor, this`byChipset, this`byProtocol, this`byBootMode, this`byScope
      reads this`bySeverity, this`byAction
    {
      && Keyed(quirks)
      && VendorIndex(byVendor, quirks)
      && ChipsetIndex(byChipset, quirks)
      && ProtocolIndex(byProtocol, quirks)
      && BootModeIndex(byBootMode, quirks)
      && ScopeIndex(byScope, quirks)
      && SeverityIndex(bySeverity, quirks)
      && ActionIndex(byAction, quirks)
    }

    constructor ()
      ensures Valid() && !built && quirks == map[]
    {
      quirks, built := map[], false;
      byVendor, byChipset, byProtocol, byBootMode, byScope := [], [], [], [], [];
      bySeverity, byAction := [], [];
    }

    /** A repeated id keeps the stored quirk and lists it once more in every index. */
    method RegisterQuirk(quirk: Quirk)
      requires Valid()
      modifies this
      ensures Valid() && quirks == Emplace(old(quirks), quirk) && built == old(built)
    {
      hide VendorIndex, ChipsetIndex, ProtocolIndex, BootModeIndex, ScopeIndex, SeverityIndex, ActionIndex, Keyed;
      hide Emplace, Stored, ChipsetEntries;
      VendorIndexGrows(byVendor, quirks, quirk);
      ChipsetIndexGrows(byChipset, quirks, quirk);
      ProtocolIndexGrows(byProtocol, quirks, quirk);
      BootModeIndexGrows(byBootMode, quirks, quirk);
      ScopeIndexGrows(byScope, quirks, quirk);
      SeverityIndexGrows(bySeverity, quirks, quirk);
      ActionIndexGrows(byAction, quirks, quirk);
      KeyedGrows(quirks, quirk);
      var id := quirk.quirkId;
      var stored := Emplace(quirks, quirk);
      var q := Stored(quirks, quirk);
      quirks, byVendor, byChipset := stored, byVendor + [(q.vendor, id)], byChipset + ChipsetEntries(q, id);
      byProtocol, byBootMode := byProtocol + [(q.protocol, id)], byBootMode + [(q.bootMode, id)];
      byScope, bySeverity := byScope + [(q.scope, id)], bySeverity + [(q.severity, id)];
      byAction := byAction + [(q.action, id)];
    }

    method ClearAll()
      modifies this
      ensures Valid() && quirks == map[]
    {
      quirks := map[];
      byVendor, byChipset, byProtocol, byBootMode, byScope := [], [], [], [], [];
      bySeverity, byAction := [], [];
    }

    method Rebuild(files: seq<Quirk>)
      requires Valid()
      modifies this
      ensures Valid() && built && quirks == RegisterAll(files)
    {
      ClearAll();
      for i := 0 to |files|
        invariant Valid() && quirks == RegisterAll(files[..i])
      {
        hide RegisterAll;
        AppendFile(files, i);
        RegisterQuirk(files[i]);
      }
      assert files[..|files|] == files;
      built := true;
    }

    /** Exact hits first, then partial matches among the other entries. */
    method FindByChipset(id: ChipsetId) returns (r: seq<string>)
      requires Valid()
      ensures forall x :: x in r <==> built && x in quirks && ChipsetFound(quirks[x].chipset, id)
    {
      if !built {
        return [];
      }
      var key := id.ToString();
      r := Collect(byChipset, key);
      ghost var exact := r;
      for i := 0 to |byChipset|
        invariant forall x :: x in r <==> x in exact || PartialAmong(byChipset[..i], quirks, key, id, x)
      {
        var (k, x) := byChipset[i];
        assert (k, x) in byChipset;
        assert byChipset[..i + 1] == byChipset[..i] + [(k, x)];
        PartialNext(byChipset[..i], (k, x), quirks, key, id);
        hide PartialAmong;
        if k != key && PartialMatch(quirks[x].chipset, id) && x !in r {
          r := r + [x];
        }
      }
      assert byChipset[..|byChipset|] == byChipset;
      forall x | x in quirks && PartialMatch(quirks[x].chipset, id) ensures x in r {
        assert (quirks[x].chipset.ToString(), x) in byChipset;
      }
    }

    method FindByVendor(v: Vendor) returns (r: seq<string>)
      requires Valid()
      ensures forall x :: x in r <==> built && x in quirks && quirks[x].vendor == v
    {
      if !built {
        return [];
      }
      r := Collect(byVendor, v);
    }

    method FindByProtocol(p: Protocol) returns (r: seq<string>)
      requires Valid()
      ensures forall x :: x in r <==> built && x in quirks && quirks[x].protocol == p
    {
      if !built {
        return [];
      }
      r := Collect(byProtocol, p);
    }

    method FindByBootMode(m: BootMode) returns (r: seq<string>)
      requires Valid()
      ensures forall x :: x in r <==> built && x in quirks && quirks[x].bootMode == m
    {
      if !built {
        return [];
      }
      r := Collect(byBootMode, m);
    }

    method FindByScope(s: Scope) returns (r: seq<string>)
      requires Valid()
      ensures forall x :: x in r <==> built && x in quirks && quirks[x].scope == s
    {
      if !built {
        return [];
      }
      r := Collect(byScope, s);
    }

    method FindBySeverity(s: Severity) returns (r: seq<string>)
      requires Valid()
      ensures forall x :: x in r <==> built && x in quirks && quirks[x].severity == s
    {
      if !built {
        return [];
      }
      r := Collect(bySeverity, s);
    }

    method FindByAction(a: Action) returns (r: seq<string>)
      requires Valid()
      ensures forall x :: x in r <==> built && x in quirks && quirks[x].action == a
    {
      if !built {
        return [];
      }
      r := Collect(byAction, a);
    }

    /** Everything any of the five lookups finds, with repetitions. */
    method FindCandidates(d: Device) returns (r: seq<string>)
      requires Valid()
      ensures forall x :: x in r <==> built && x in quirks && Candidate(quirks[x], d)
    {
      r := FindByVendor(d.vendor);
      var more := FindByChipset(d.chipset);
      r := r + more;
      more := FindByProtocol(d.protocol);
      r := r + more;
      more := FindByBootMode(d.bootMode);
      r := r + more;
      more := FindByScope(Global);
      r := r + more;
    }
  }

  // ----- the resolver -----

  datatype Resolved = Resolved(
    applicable: seq<string>, info: seq<string>, warnings: seq<string>, errors: seq<string>,
    criticals: seq<string>, hasBlockers: bool)

  function OfSeverity(ids: seq<string>, store: Store, s: Severity): seq<string>
    requires forall id :: id in ids ==> id in store
  {
    if ids == [] then []
    else
      var last := ids[|ids| - 1];
      OfSeverity(ids[..|ids| - 1], store, s) + (if store[last].severity == s then [last] else [])
  }

  ghost predicate Bucketed(r: Resolved, store: Store) {
    && (forall id :: id in r.applicable ==> id in store)
    && r.info == OfSeverity(r.applicable, store, Info)
    && r.warnings == OfSeverity(r.applicable, store, Warning)
    && r.errors == OfSeverity(r.applicable, store, Error)
    && r.criticals == OfSeverity(r.applicable, store, Critical)
    && (r.hasBlockers <==> exists id :: id in r.applicable && store[id].severity == Critical)
  }

  lemma OfSeverityNext(ids: seq<string>, id: string, store: Store, s: Severity)
    requires id in store && forall id :: id in ids ==> id in store
    ensures OfSeverity(ids + [id], store, s) ==
            OfSeverity(ids, store, s) + (if store[id].severity == s then [id] else [])
  {
    assert (ids + [id])[..|ids|] == ids;
  }

  lemma {:induction false} OfSeverityCount(ids: seq<string>, store: Store, s: Severity, x: string)
    requires forall id :: id in ids ==> id in store
    ensures multiset(OfSeverity(ids, store, s))[x] ==
            if x in store && store[x].severity == s then multiset(ids)[x] else 0
  {
    if ids != [] {
      var front, last := ids[..|ids| - 1], ids[|ids| - 1];
      assert ids == front + [last];
      OfSeverityCount(front, store, s, x);
      OfSeverityNext(front, last, store, s);
      hide OfSeverity;
    }
  }

  /** The severity buckets hold every applicable quirk exactly once between them. */
  lemma BucketsPartition(ids: seq<string>, store: Store)
    requires forall id :: id in ids ==> id in store
    ensures multiset(ids) == multiset(OfSeverity(ids, store, Info)) + multiset(OfSeverity(ids, store, Warning))
                           + multiset(OfSeverity(ids, store, Error)) + multiset(OfSeverity(ids, store, Critical))
  {
    hide OfSeverity;
    forall x
      ensures multiset(ids)[x] ==
        multiset(OfSeverity(ids, store, Info))[x] + multiset(OfSeverity(ids, store, Warning))[x]
        + multiset(OfSeverity(ids, store, Error))[x] + multiset(OfSeverity(ids, store, Critical))[x]
    {
      OfSeverityCount(ids, store, Info, x);
      OfSeverityCount(ids, store, Warning, x);
      OfSeverityCount(ids, store, Error, x);
      OfSeverityCount(ids, store, Critical, x);
      assert x !in ids ==> multiset(ids)[x] == 0;
      assert x in store ==>
        store[x].severity == Info || store[x].severity == Warning ||
        store[x].severity == Error || store[x].severity == Critical;
    }
  }

  /** A bucket holds exactly the applicable quirks of its severity. */
  lemma {:induction false} BucketHas(ids: seq<string>, store: Store, s: Severity)
    requires forall id :: id in ids ==> id in store
    ensures Holds(OfSeverity(ids, store, s), ids, store, s)
  {
    if ids != [] {
      var front, last := ids[..|ids| - 1], ids[|ids| - 1];
      BucketHas(front, store, s);
      assert ids == front + [last];
    }
  }

  /** Every applicable quirk is in exactly the bucket of its severity, once. */
  ghost predicate Partitioned(r: Resolved, store: Store) {
    && multiset(r.applicable) == multiset(r.info) + multiset(r.warnings) + multiset(r.errors) + multiset(r.criticals)
    && Holds(r.info, r.applicable, store, Info)
    && Holds(r.warnings, r.applicable, store, Warning)
    && Holds(r.errors, r.applicable, store, Error)
    && Holds(r.criticals, r.applicable, store, Critical)
  }

  /** The bucket holds exactly the applicable quirks of its severity. */
  ghost predicate Holds(bucket: seq<string>, applicable: seq<string>, store: Store, s: Severity) {
    forall id :: id in bucket <==> id in applicable && id in store && store[id].severity == s
  }

  /** What resolving answers about the stored quirks. */
  ghost predicate IsResolution(r: Resolved, store: Store, built: bool, d: Device, p: Policy) {
    && Distinct(r.applicable)
    && (forall id :: id in r.applicable <==> built && id in store && Applies(store[id], d, p))
    && Bucketed(r, store) && Partitioned(r, store)
    && (r.hasBlockers <==> exists id :: id in r.applicable && store[id].severity == Critical)
  }

  /** A found, fitting, enabled and allowed critical quirk is applicable and blocks, whatever the minimum. */
  lemma CriticalBlocks(r: Resolved, store: Store, d: Device, p: Policy, id: string)
    requires IsResolution(r, store, true, d, p) && id in store
    requires var q := store[id];
             && q.severity == Critical && q.enabled && IsFound(q, d) && Fits(q, d)
             && (p.applicableVendors == [] || q.vendor in p.applicableVendors || q.vendor == Vendor.Unknown)
    ensures r.hasBlockers && id in r.applicable && id in r.criticals
  {
    hide IsFound, Fits, Bucketed;
  }

  /** The same device and quirks under a higher minimum: what applies then applied before. */
  lemma HigherMinimumShrinks(r: Resolved, s: Resolved, store: Store, built: bool, d: Device, p: Policy, min: Severity)
    requires IsResolution(r, store, built, d, p) && IsResolution(s, store, built, d, p.(minSeverity := min))
    requires AtLeast(min, p.minSeverity)
    ensures forall id :: id in s.applicable ==> id in r.applicable
  {
    hide Applies, Bucketed, Partitioned, AtLeast;
    forall id | id in s.applicable ensures id in r.applicable {
      HigherMinimumRemoves(store[id], d, p, min);
    }
  }

  lemma BlockersIff(r: Resolved, store: Store)
    requires Bucketed(r, store)
    ensures r.hasBlockers <==> exists id :: id in r.applicable && id in store && store[id].severity == Critical
  {
    hide OfSeverity;
  }

  lemma BucketsArePartition(r: Resolved, store: Store)
    requires Bucketed(r, store)
    ensures Partitioned(r, store)
  {
    BucketsPartition(r.applicable, store);
    BucketHas(r.applicable, store, Info);
    BucketHas(r.applicable, store, Warning);
    BucketHas(r.applicable, store, Error);
    BucketHas(r.applicable, store, Critical);
    hide OfSeverity, Holds;
  }

  function AddTo(r: Resolved, id: string, s: Severity): (out: Resolved)
    ensures out.applicable == r.applicable + [id]
  {
    var r := r.(applicable := r.applicable + [id]);
    match s
    case Info => r.(info := r.info + [id])
    case Warning => r.(warnings := r.warnings + [id])
    case Error => r.(errors := r.errors + [id])
    case Critical => r.(criticals := r.criticals + [id], hasBlockers := true)
  }

  lemma AddKeepsBuckets(r: Resolved, store: Store, id: string)
    requires Bucketed(r, store) && id in store
    ensures Bucketed(AddTo(r, id, store[id].severity), store)
  {
    OfSeverityNext(r.applicable, id, store, Info);
    OfSeverityNext(r.applicable, id, store, Warning);
    OfSeverityNext(r.applicable, id, store, Error);
    OfSeverityNext(r.applicable, id, store, Critical);
    hide OfSeverity;
  }

  class Resolver {
    const db: Database
    var policy: Policy

    constructor (db: Database, policy: Policy)
      ensures this.db == db && this.policy == policy
    {
      this.db, this.policy := db, policy;
    }

    /** The first pass: enabled, allowed by the policy, each once. */
    method Deduplicate(all: seq<string>) returns (unique: seq<string>)
      requires forall id :: id in all ==> id in db.quirks
      ensures Distinct(unique)
      ensures forall id :: id in unique <==> id in all && db.quirks[id].enabled && Allowed(db.quirks[id], policy)
      ensures forall id :: id in unique <==>
        id in all && db.quirks[id].enabled &&
        (policy.applicableVendors == [] || db.quirks[id].vendor in policy.applicableVendors
         || db.quirks[id].vendor == Vendor.Unknown)
    {
      unique := [];
      var seen: set<string> := {};
      for i := 0 to |all|
        invariant Distinct(unique) && (forall id :: id in seen <==> id in unique)
        invariant forall id :: id in unique <==> id in all[..i] && db.quirks[id].enabled && Allowed(db.quirks[id], policy)
      {
        assert all[..i + 1] == all[..i] + [all[i]];
        var q := db.quirks[all[i]];
        if q.enabled && Allowed(q, policy) && all[i] !in seen {
          seen := seen + {all[i]};
          unique := unique + [all[i]];
        }
      }
      assert all[..|all|] == all;
    }

    /** One candidate of the second pass. */
    method FilterOne(r0: Resolved, id: string, d: Device) returns (r: Resolved)
      requires id in db.quirks && Distinct(r0.applicable) && Bucketed(r0, db.quirks) && id !in r0.applicable
      ensures Distinct(r.applicable) && Bucketed(r, db.quirks)
      ensures r.applicable == r0.applicable +
                (if Matches(db.quirks[id], d) && SevereEnough(db.quirks[id], policy) then [id] else [])
    {
      AddKeepsBuckets(r0, db.quirks, id);
      hide Bucketed, Matches, SevereEnough, AddTo;
      r := r0;
      var q := db.quirks[id];
      if id !in r.applicable && Matches(q, d) && SevereEnough(q, policy) {
        r := AddTo(r, id, q.severity);
      }
    }

    /** The second pass: match the device, respect the minimum severity, sort into buckets. */
    method Filter(unique: seq<string>, d: Device) returns (r: Resolved)
      requires Distinct(unique) && forall id :: id in unique ==> id in db.quirks
      ensures Distinct(r.applicable) && Bucketed(r, db.quirks)
      ensures forall id :: id in r.applicable <==>
        id in unique && Fits(db.quirks[id], d) && AtLeast(db.quirks[id].severity, policy.minSeverity)
    {
      r := Resolved([], [], [], [], [], false);
      for i := 0 to |unique|
        invariant Distinct(r.applicable) && Bucketed(r, db.quirks)
        invariant forall id :: id in r.applicable <==>
          id in unique[..i] && Matches(db.quirks[id], d) && SevereEnough(db.quirks[id], policy)
      {
        hide Bucketed, Matches, SevereEnough;
        var id := unique[i];
        assert unique[..i + 1] == unique[..i] + [id];
        assert id !in unique[..i];
        r := FilterOne(r, id, d);
      }
      hide Bucketed, Matches, SevereEnough, Fits, AtLeast;
      assert unique[..|unique|] == unique;
      forall id | id in unique
        ensures Matches(db.quirks[id], d) && SevereEnough(db.quirks[id], policy) <==>
                Fits(db.quirks[id], d) && AtLeast(db.quirks[id].severity, policy.minSeverity)
      {
        MatchesIff(db.quirks[id], d);
        SeverityIff(db.quirks[id], policy);
      }
    }

    /** The applicable quirks are exactly the enabled, allowed, matching and severe enough candidates,
        once each, and the buckets are theirs by severity, in the same order. */
    method Resolve(d: Device) returns (r: Resolved)
      requires db.Valid()
      ensures IsResolution(r, db.quirks, db.built, d, policy)
    {
      hide Bucketed, Partitioned, Matches, SevereEnough, Candidate, Allowed, Applies, Fits, AtLeast;
      var all := db.FindCandidates(d);
      var unique := Deduplicate(all);
      r := Filter(unique, d);
      BucketsArePartition(r, db.quirks);
      BlockersIff(r, db.quirks);
      forall id | db.built && id in db.quirks
        ensures Selected(db.quirks[id], d, policy) <==> Applies(db.quirks[id], d, policy)
        ensures Matches(db.quirks[id], d) <==> Fits(db.quirks[id], d)
        ensures SevereEnough(db.quirks[id], policy) <==> AtLeast(db.quirks[id].severity, policy.minSeverity)
      {
        SelectedIff(db.quirks[id], d, policy);
        MatchesIff(db.quirks[id], d);
        SeverityIff(db.quirks[id], policy);
      }
    }
  }
}
