/** The quirk database, whose multimap indexes must agree with a scan of its quirks, and the
    resolver that merges, deduplicates and filters what the indexes find. */
module Quirks {
  import opened Discovery

  datatype Severity = Info | Warning | Error | Critical {
    function Rank(): nat {
      match this case Info => 0 case Warning => 1 case Error => 2 case Critical => 3
    }
  }

  datatype Scope = Global | OfVendor | OfChipset | OfProtocol | OfBootMode | OfTransport | OfLoader | OfProfile

  datatype Action =
    | NoAction | OverrideXml | OverrideReset | OverrideTimeout | OverrideAck | OverrideAlign | OverrideGptLayout
    | OverrideAuth | OverrideConfig | CustomAction

  /** The fields that lookups and resolution read. */
  datatype Quirk = Quirk(
    quirkId: string, severity: Severity, scope: Scope, action: Action, vendor: Vendor, chipset: ChipsetId,
    protocol: Protocol, bootMode: BootMode, enabled: bool)

  datatype Policy = Policy(minSeverity: Severity, applicableVendors: seq<Vendor>)

  datatype Device = Device(vendor: Vendor, chipset: ChipsetId, protocol: Protocol, bootMode: BootMode)

  type Store = map<string, Quirk>

  // ----- which quirks apply -----

  predicate MatchVendor(a: Vendor, b: Vendor) {
    a == b || a.Unknown? || b.Unknown?
  }

  predicate MatchChipset(a: ChipsetId, b: ChipsetId) {
    || a.vendor == "" || b.vendor == ""
    || (a.vendor == b.vendor
        && (a.family == "" || b.family == "" || a.family == b.family)
        && (a.variant == "" || b.variant == "" || a.variant == b.variant))
  }

  predicate Allowed(q: Quirk, p: Policy) {
    p.applicableVendors == [] || q.vendor in p.applicableVendors || q.vendor.Unknown?
  }

  predicate Matches(q: Quirk, d: Device) {
    && (q.vendor.Unknown? || MatchVendor(q.vendor, d.vendor))
    && (q.chipset.vendor == "" || MatchChipset(q.chipset, d.chipset))
    && (q.protocol.Unknown? || q.protocol == d.protocol)
    && (q.bootMode.Unknown? || q.bootMode == d.bootMode)
  }

  predicate SevereEnough(q: Quirk, p: Policy) {
    q.severity.Rank() >= p.minSeverity.Rank()
  }

  // ----- which quirks the lookups find -----

  predicate UnderKey(c: ChipsetId, key: string) {
    key == c.ToString() || (c.vendor != "" && key == c.vendor + "//")
  }

  predicate PartialMatch(c: ChipsetId, id: ChipsetId) {
    && c.vendor == id.vendor
    && (id.family == "" || c.family == id.family || c.family == "")
    && (id.variant == "" || c.variant == id.variant || c.variant == "")
  }

  predicate ChipsetFound(c: ChipsetId, id: ChipsetId) {
    UnderKey(c, id.ToString()) || PartialMatch(c, id)
  }

  predicate Candidate(q: Quirk, d: Device) {
    || q.vendor == d.vendor
    || ChipsetFound(q.chipset, d.chipset)
    || q.protocol == d.protocol
    || q.bootMode == d.bootMode
    || q.scope.Global?
  }

  predicate Selected(q: Quirk, d: Device, p: Policy) {
    Candidate(q, d) && q.enabled && Allowed(q, p) && Matches(q, d) && SevereEnough(q, p)
  }

  /** No slash in the two fields that another field follows; a variant may hold one. */
  predicate NoSlash(c: ChipsetId) {
    '/' !in c.vendor && '/' !in c.family
  }

  lemma {:induction false} FirstSlash(a: string, s: string, b: string, t: string)
    requires '/' !in a && '/' !in b && a + "/" + s == b + "/" + t
    ensures a == b && s == t
  {
    var x, y := a + "/" + s, b + "/" + t;
    assert x[|a|] == '/' && y[|b|] == '/';
    assert |a| == |b|;
    assert a == x[..|a|] && b == y[..|b|];
    assert s == x[|a| + 1..] && t == y[|b| + 1..];
  }

  /** The part of a chipset's name after its vendor. */
  function AfterVendor(c: ChipsetId): string {
    c.family + (if c.variant == "" then "" else "/" + c.variant)
  }

  lemma ToStringSplit(c: ChipsetId)
    ensures c.ToString() == c.vendor + "/" + AfterVendor(c)
  {
  }

  lemma SlashShowsVariant(c: ChipsetId)
    requires NoSlash(c)
    ensures '/' in AfterVendor(c) <==> c.variant != ""
    ensures AfterVendor(c) == if c.variant == "" then c.family else c.family + "/" + c.variant
  {
    if c.variant != "" {
      assert AfterVendor(c)[|c.family|] == '/';
    }
  }

  lemma AfterVendorInjective(a: ChipsetId, b: ChipsetId)
    requires NoSlash(a) && NoSlash(b) && AfterVendor(a) == AfterVendor(b)
    ensures a.family == b.family && a.variant == b.variant
  {
    SlashShowsVariant(a);
    SlashShowsVariant(b);
    if a.variant != "" {
      FirstSlash(a.family, a.variant, b.family, b.variant);
    }
  }

  /** Without slashes in vendor and family the name of a chipset determines it. */
  lemma ToStringInjective(a: ChipsetId, b: ChipsetId)
    requires NoSlash(a) && NoSlash(b) && a.ToString() == b.ToString()
    ensures a == b
  {
    ToStringSplit(a);
    ToStringSplit(b);
    FirstSlash(a.vendor, AfterVendor(a), b.vendor, AfterVendor(b));
    AfterVendorInjective(a, b);
  }

  /** The vendor-only key is never looked up: no chipset without slashes in vendor and family prints
      like that. */
  lemma VendorKeyIsDead(vendor: string, id: ChipsetId)
    requires NoSlash(id) && '/' !in vendor
    ensures id.ToString() != vendor + "//"
  {
    ToStringSplit(id);
    SlashShowsVariant(id);
    assert vendor + "//" == vendor + "/" + "/";
    assert AfterVendor(id) != "/" by {
      assert |AfterVendor(id)| == 1 && id.variant != "" ==> |id.variant| == 0;
    }
    if id.ToString() == vendor + "//" {
      FirstSlash(vendor, "/", id.vendor, AfterVendor(id));
    }
  }

  lemma ChipsetLookup(c: ChipsetId, id: ChipsetId)
    requires NoSlash(c) && NoSlash(id)
    ensures ChipsetFound(c, id) <==> PartialMatch(c, id)
  {
    if UnderKey(c, id.ToString()) {
      VendorKeyIsDead(c.vendor, id);
      ToStringInjective(c, id);
    }
  }

  // ----- when a lookup can be trusted -----

  /** An id that prints with exactly one slash, the one between vendor and family. */
  predicate Plain(id: ChipsetId) {
    '/' !in id.vendor && '/' !in id.family && id.variant == ""
  }

  lemma PlainName(id: ChipsetId, i: nat)
    requires Plain(id) && i < |id.ToString()|
    ensures id.ToString()[i] == '/' <==> i == |id.vendor|
  {
    var name := id.ToString();
    assert name == id.vendor + "/" + id.family;
    if i < |id.vendor| {
      assert name[i] == id.vendor[i];
    } else if i > |id.vendor| {
      assert name[i] == id.family[i - |id.vendor| - 1];
    }
  }

  lemma VariantShows(c: ChipsetId)
    ensures c.variant != "" ==> '/' in AfterVendor(c)
  {
    if c.variant != "" {
      assert AfterVendor(c)[|c.family|] == '/';
    }
  }

  /** A chipset that prints like a plain id is that id. */
  lemma PlainNameIsUnique(c: ChipsetId, id: ChipsetId)
    requires Plain(id) && c.ToString() == id.ToString()
    ensures c == id
  {
    var name := id.ToString();
    ToStringSplit(c);
    ToStringSplit(id);
    assert AfterVendor(id) == id.family;
    assert name[|c.vendor|] == '/';
    PlainName(id, |c.vendor|);
    assert c.vendor == name[..|c.vendor|] && id.vendor == name[..|id.vendor|];
    assert AfterVendor(c) == name[|c.vendor| + 1..] && id.family == name[|id.vendor| + 1..];
    VariantShows(c);
  }

  lemma VendorKeyMissesPlain(vendor: string, id: ChipsetId)
    requires Plain(id)
    ensures id.ToString() != vendor + "//"
  {
    var key := vendor + "//";
    assert key[|vendor|] == '/' && key[|vendor| + 1] == '/';
    if id.ToString() == key {
      PlainName(id, |vendor|);
      PlainName(id, |vendor| + 1);
    }
  }

  lemma PlainFindsOnlyMatches(c: ChipsetId, id: ChipsetId)
    requires Plain(id) && ChipsetFound(c, id)
    ensures PartialMatch(c, id)
  {
    VendorKeyMissesPlain(c.vendor, id);
    if c.ToString() == id.ToString() {
      PlainNameIsUnique(c, id);
    }
  }

  /** The chipset whose vendor is everything before the slash at i and whose family is the rest. */
  function SplitAt(name: string, i: nat): ChipsetId
    requires i < |name|
  {
    ChipsetId(name[..i], name[i + 1..], "")
  }

  lemma SplitPrints(name: string, i: nat)
    requires i < |name| && name[i] == '/'
    ensures SplitAt(name, i).ToString() == name
  {
    assert name == name[..i] + "/" + name[i + 1..];
  }

  /** Any other id prints with a second slash. */
  lemma SecondSlash(id: ChipsetId) returns (i: nat, l: nat)
    requires !Plain(id)
    ensures var name := id.ToString(); i < l < |name| && name[i] == '/' && name[l] == '/'
  {
    var name := id.ToString();
    ToStringSplit(id);
    assert name[|id.vendor|] == '/';
    if '/' in id.vendor {
      i :| 0 <= i < |id.vendor| && id.vendor[i] == '/';
      l := |id.vendor|;
      assert name[i] == id.vendor[i];
    } else {
      i := |id.vendor|;
      var rest := AfterVendor(id);
      var k: nat;
      if '/' in id.family {
        k :| 0 <= k < |id.family| && id.family[k] == '/';
        assert rest[k] == id.family[k];
      } else {
        k := |id.family|;
        assert rest[k] == '/';
      }
      l := i + 1 + k;
      assert name[l] == rest[k];
    }
  }

  /** Two slashes in the name: two chipsets of different vendors are found under it. */
  lemma OtherIsConfused(id: ChipsetId) returns (c: ChipsetId)
    requires !Plain(id)
    ensures ChipsetFound(c, id) && !PartialMatch(c, id)
  {
    var i, l := SecondSlash(id);
    var name := id.ToString();
    SplitPrints(name, i);
    SplitPrints(name, l);
    var a, b := SplitAt(name, i), SplitAt(name, l);
    assert |a.vendor| != |b.vendor|;
    c := if a.vendor == id.vendor then b else a;
  }

  /** Which queries can be trusted whatever is stored: the lookup returns only matching chipsets if and only
      if the queried id has no variant and no slash in vendor or family. */
  lemma LookupTrustedIff(id: ChipsetId)
    ensures (forall c :: ChipsetFound(c, id) ==> PartialMatch(c, id)) <==> Plain(id)
  {
    if Plain(id) {
      forall c | ChipsetFound(c, id) ensures PartialMatch(c, id) {
        PlainFindsOnlyMatches(c, id);
      }
    } else {
      var c := OtherIsConfused(id);
    }
  }

  /** Either way round: a slash in a queried field, or a variant in a query without any slash, finds a chipset
      of another vendor. */
  lemma SlashConfusesLookup()
    ensures var a, b := ChipsetId("a", "b", "c"), ChipsetId("a/b", "c", "");
            ChipsetFound(a, b) && !PartialMatch(a, b) && ChipsetFound(b, a) && !PartialMatch(b, a)
  {
    var a, b := ChipsetId("a", "b", "c"), ChipsetId("a/b", "c", "");
    assert a.ToString() == "a/b/c" && b.ToString() == "a/b/c";
  }

  // ----- which quirks are missed -----

  /** Exactly which matching quirks no lookup finds: those that leave the protocol and the boot mode
      open although the device states both, are not global, and do not hit by vendor or chipset. The
      chipset hits exactly if it matches partially or is stored under the printed name; only the former,
      if the device's chipset is plain or neither has a slash in vendor or family. */
  lemma MissedExactly(q: Quirk, d: Device)
    requires Matches(q, d)
    ensures !Candidate(q, d) <==>
      && !q.scope.Global?
      && q.protocol.Unknown? && !d.protocol.Unknown?
      && q.bootMode.Unknown? && !d.bootMode.Unknown?
      && (q.vendor.Unknown? <==> !d.vendor.Unknown?)
      && !PartialMatch(q.chipset, d.chipset) && !UnderKey(q.chipset, d.chipset.ToString())
    ensures Plain(d.chipset) || (NoSlash(q.chipset) && NoSlash(d.chipset)) ==>
      (UnderKey(q.chipset, d.chipset.ToString()) ==> PartialMatch(q.chipset, d.chipset))
  {
    if Plain(d.chipset) {
      LookupTrustedIff(d.chipset);
    } else if NoSlash(q.chipset) && NoSlash(d.chipset) {
      ChipsetLookup(q.chipset, d.chipset);
    }
    hide PartialMatch, UnderKey;
  }

  /** A quirk that names a chipset and matches a named one is always found. */
  lemma NamedChipsetFound(q: Quirk, d: Device)
    requires Matches(q, d) && q.chipset.vendor != "" && d.chipset.vendor != ""
    ensures Candidate(q, d)
  {
  }

  // ----- what it takes to apply, field by field -----

  /** At least as severe, in the order Info, Warning, Error, Critical. */
  predicate AtLeast(s: Severity, min: Severity) {
    match min
    case Info => true
    case Warning => s == Warning || s == Error || s == Critical
    case Error => s == Error || s == Critical
    case Critical => s == Critical
  }

  /** The device's name for the chipset: vendor, family and, if it has one, variant. */
  function NameOf(c: ChipsetId): string {
    if c.variant == "" then c.vendor + "/" + c.family else c.vendor + "/" + c.family + "/" + c.variant
  }

  /** Some lookup finds the quirk: by vendor, protocol, boot mode, as a global one, or by chipset. */
  predicate IsFound(q: Quirk, d: Device) {
    || q.vendor == d.vendor || q.protocol == d.protocol || q.bootMode == d.bootMode || q.scope == Global
    || NameOf(q.chipset) == NameOf(d.chipset)
    || (q.chipset.vendor != "" && q.chipset.vendor + "//" == NameOf(d.chipset))
    || (q.chipset.vendor == d.chipset.vendor
        && (d.chipset.family == "" || q.chipset.family == "" || q.chipset.family == d.chipset.family)
        && (d.chipset.variant == "" || q.chipset.variant == "" || q.chipset.variant == d.chipset.variant))
  }

  /** A field the quirk leaves open does not bind; an unknown or unnamed side of the device does not either,
      for vendor and chipset. */
  predicate Fits(q: Quirk, d: Device) {
    && (q.vendor == Vendor.Unknown || d.vendor == Vendor.Unknown || q.vendor == d.vendor)
    && (q.protocol == Protocol.Unknown || q.protocol == d.protocol)
    && (q.bootMode == BootMode.Unknown || q.bootMode == d.bootMode)
    && (q.chipset.vendor == "" || d.chipset.vendor == "" ||
        (q.chipset.vendor == d.chipset.vendor
         && (q.chipset.family == "" || d.chipset.family == "" || q.chipset.family == d.chipset.family)
         && (q.chipset.variant == "" || d.chipset.variant == "" || q.chipset.variant == d.chipset.variant)))
  }

  predicate Applies(q: Quirk, d: Device, p: Policy) {
    && q.enabled
    && (p.applicableVendors == [] || q.vendor in p.applicableVendors || q.vendor == Vendor.Unknown)
    && IsFound(q, d) && Fits(q, d) && AtLeast(q.severity, p.minSeverity)
  }

  lemma NameIsToString(c: ChipsetId)
    ensures NameOf(c) == c.ToString()
  {
  }

  lemma SelectedIff(q: Quirk, d: Device, p: Policy)
    ensures Selected(q, d, p) <==> Applies(q, d, p)
  {
    NameIsToString(q.chipset);
    NameIsToString(d.chipset);
    hide NameOf;
    SeverityIff(q, p);
    hide AtLeast, SevereEnough;
  }

  lemma MatchesIff(q: Quirk, d: Device)
    ensures Matches(q, d) <==> Fits(q, d)
  {
  }

  lemma SeverityIff(q: Quirk, p: Policy)
    ensures SevereEnough(q, p) <==> AtLeast(q.severity, p.minSeverity)
  {
  }

  /** A critical quirk applies under every minimum or under none. */
  lemma CriticalIgnoresMinimum(q: Quirk, d: Device, p: Policy, min: Severity)
    requires q.severity == Critical
    ensures Applies(q, d, p) <==> Applies(q, d, p.(minSeverity := min))
  {
    hide IsFound, Fits;
  }

  /** Raising the minimum only removes quirks. */
  lemma HigherMinimumRemoves(q: Quirk, d: Device, p: Policy, min: Severity)
    requires AtLeast(min, p.minSeverity) && Applies(q, d, p.(minSeverity := min))
    ensures Applies(q, d, p)
  {
    hide IsFound, Fits;
  }

  /** The minimum of a default-constructed policy keeps Info out and nothing else. */
  const DEFAULT_POLICY: Policy := Policy(Warning, [])

  lemma DefaultPolicyApplies(q: Quirk, d: Device)
    ensures Applies(q, d, DEFAULT_POLICY) <==> q.enabled && IsFound(q, d) && Fits(q, d) && q.severity != Info
  {
    hide IsFound, Fits;
  }
}
