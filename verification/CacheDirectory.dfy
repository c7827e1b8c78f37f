/** The cache directory as a map from file names to contents, and the four areas it holds. */
module CacheDirectory {
  import opened Bytes
  import opened CacheCodec
  import CacheLayout
  import opened CacheRecords
  import opened Wrappers

  datatype Area = Meta | Loader | Lookup | Dep

  type Dir = map<string, Buffer>

  predicate Safe(c: char) {
    'a' <= c <= 'z' || 'A' <= c <= 'Z' || '0' <= c <= '9' || c == '_' || c == '-' || c == '.'
  }

  /** Every other character becomes an underscore. */
  function Sanitize(id: string): (r: string)
    ensures |r| == |id|
    ensures forall i :: 0 <= i < |r| ==> Safe(r[i])
    ensures (forall i :: 0 <= i < |id| ==> Safe(id[i])) ==> r == id
  {
    seq(|id|, i requires 0 <= i < |id| => if Safe(id[i]) then id[i] else '_')
  }

  const SMALL: string := "abcdefghijklmnopqrstuvwxyz"
  const CAPITAL: string := "ABCDEFGHIJKLMNOPQRSTUVWXYZ"
  const OTHERS: string := "0123456789_-."

  lemma SmallLetters(c: char)
    ensures c in SMALL <==> 'a' <= c <= 'z'
  {
    if 'a' <= c <= 'z' {
      assert SMALL[c as int - 'a' as int] == c;
    }
  }

  lemma CapitalLetters(c: char)
    ensures c in CAPITAL <==> 'A' <= c <= 'Z'
  {
    if 'A' <= c <= 'Z' {
      assert CAPITAL[c as int - 'A' as int] == c;
    }
  }

  lemma OtherCharacters(c: char)
    ensures c in OTHERS <==> '0' <= c <= '9' || c == '_' || c == '-' || c == '.'
  {
    if '0' <= c <= '9' {
      assert OTHERS[c as int - '0' as int] == c;
    }
    assert OTHERS[10] == '_' && OTHERS[11] == '-' && OTHERS[12] == '.';
  }

  /** A character of an id is kept exactly if it is one of these, and else becomes an underscore. */
  lemma SanitizedAt(id: string, i: nat)
    requires i < |id|
    ensures Sanitize(id)[i] == if id[i] in SMALL || id[i] in CAPITAL || id[i] in OTHERS then id[i] else '_'
  {
    SmallLetters(id[i]);
    CapitalLetters(id[i]);
    OtherCharacters(id[i]);
  }

  function Ext(a: Area): string {
    match a
    case Meta => ".meta"
    case Loader => ".ldr"
    case Lookup => ".lup"
    case Dep => ".dep"
  }

  function FileName(a: Area, safe: string): string {
    safe + Ext(a)
  }

  /** Two entries share a file only if they are the same entry of the same area. */
  lemma NamesDistinct(a: Area, s: string, b: Area, t: string)
    ensures FileName(a, s) == FileName(b, t) <==> a == b && s == t
  {
    if FileName(a, s) == FileName(b, t) {
      var n := FileName(a, s);
      var m := FileName(b, t);
      assert n[|n| - 1] == m[|m| - 1] && n[|n| - 2] == m[|m| - 2];
      assert n[|n| - 1] == Ext(a)[|Ext(a)| - 1] && n[|n| - 2] == Ext(a)[|Ext(a)| - 2];
      assert m[|m| - 1] == Ext(b)[|Ext(b)| - 1] && m[|m| - 2] == Ext(b)[|Ext(b)| - 2];
      assert a == b;
      assert s == n[..|n| - |Ext(a)|] && t == m[..|m| - |Ext(b)|];
    }
  }

  function Entry(d: Dir, a: Area, safe: string): Option<Buffer> {
    if FileName(a, safe) in d then Some(d[FileName(a, safe)]) else None
  }

  // ----- operations on the directory -----

  datatype Op =
    | Store(area: Area, id: string, bytes: Buffer)
    | Remove(area: Area, id: string)
    | Clear
    | Prune(expired: set<string>)

  function Apply(d: Dir, op: Op): Dir {
    match op
    case Store(a, id, bytes) => d[FileName(a, Sanitize(id)) := bytes]
    case Remove(a, id) => d - {FileName(a, Sanitize(id))}
    case Clear => map[]
    case Prune(expired) => d - expired
  }

  ghost function ApplyAll(d: Dir, ops: seq<Op>): Dir
    decreases |ops|
  {
    if ops == [] then d else ApplyAll(Apply(d, ops[0]), ops[1..])
  }

  // ----- the same operations on four separate maps -----

  datatype Areas = Areas(
    meta: map<string, Buffer>, loader: map<string, Buffer>, lookup: map<string, Buffer>, dep: map<string, Buffer>)
  {
    function Get(a: Area): map<string, Buffer> {
      match a
      case Meta => meta
      case Loader => loader
      case Lookup => lookup
      case Dep => dep
    }

    function Set(a: Area, m: map<string, Buffer>): Areas {
      match a
      case Meta => this.(meta := m)
      case Loader => this.(loader := m)
      case Lookup => this.(lookup := m)
      case Dep => this.(dep := m)
    }

    function At(a: Area, safe: string): Option<Buffer> {
      if safe in Get(a) then Some(Get(a)[safe]) else None
    }
  }

  const NO_AREAS := Areas(map[], map[], map[], map[])

  function Without(m: map<string, Buffer>, a: Area, expired: set<string>): map<string, Buffer> {
    map s | s in m && FileName(a, s) !in expired :: m[s]
  }

  function ApplyAreas(m: Areas, op: Op): Areas {
    match op
    case Store(a, id, bytes) => m.Set(a, m.Get(a)[Sanitize(id) := bytes])
    case Remove(a, id) => m.Set(a, m.Get(a) - {Sanitize(id)})
    case Clear => NO_AREAS
    case Prune(expired) => Areas(Without(m.meta, Meta, expired), Without(m.loader, Loader, expired),
                                 Without(m.lookup, Lookup, expired), Without(m.dep, Dep, expired))
  }

  ghost function ApplyAreasAll(m: Areas, ops: seq<Op>): Areas
    decreases |ops|
  {
    if ops == [] then m else ApplyAreasAll(ApplyAreas(m, ops[0]), ops[1..])
  }

  ghost predicate Represents(d: Dir, m: Areas) {
    forall a, s :: Entry(d, a, s) == m.At(a, s)
  }

  lemma ApplyRefinesAt(d: Dir, m: Areas, op: Op, a: Area, s: string)
    requires Entry(d, a, s) == m.At(a, s)
    ensures Entry(Apply(d, op), a, s) == ApplyAreas(m, op).At(a, s)
  {
    hide Sanitize, FileName;
    if op.Store? || op.Remove? {
      NamesDistinct(a, s, op.area, Sanitize(op.id));
    }
  }

  lemma ApplyRefines(d: Dir, m: Areas, op: Op)
    requires Represents(d, m)
    ensures Represents(Apply(d, op), ApplyAreas(m, op))
  {
    hide Entry, Apply, ApplyAreas;
    forall a, s
      ensures Entry(Apply(d, op), a, s) == ApplyAreas(m, op).At(a, s)
    {
      assert Entry(d, a, s) == m.At(a, s);
      ApplyRefinesAt(d, m, op, a, s);
    }
  }

  /** Over every run, the single directory behaves as four independent maps keyed by sanitized id. */
  lemma {:induction false} RunRefines(d: Dir, m: Areas, ops: seq<Op>)
    requires Represents(d, m)
    ensures Represents(ApplyAll(d, ops), ApplyAreasAll(m, ops))
    decreases |ops|
  {
    hide Represents, Apply, ApplyAreas;
    if ops != [] {
      ApplyRefines(d, m, ops[0]);
      RunRefines(Apply(d, ops[0]), ApplyAreas(m, ops[0]), ops[1..]);
    }
  }

  lemma EmptyRepresents()
    ensures Represents(map[], NO_AREAS)
  {
  }

  /** Over every sequence of operations on a fresh cache the one directory is four independent maps. */
  lemma RunFromEmpty(ops: seq<Op>)
    ensures Represents(ApplyAll(map[], ops), ApplyAreasAll(NO_AREAS, ops))
  {
    EmptyRepresents();
    RunRefines(map[], NO_AREAS, ops);
  }

  // ----- stored values survive unrelated operations -----

  ghost predicate Touches(op: Op, a: Area, safe: string) {
    match op
    case Store(b, id, _) => a == b && Sanitize(id) == safe
    case Remove(b, id) => a == b && Sanitize(id) == safe
    case Clear => true
    case Prune(expired) => FileName(a, safe) in expired
  }

  lemma {:induction false} Untouched(d: Dir, ops: seq<Op>, a: Area, safe: string)
    requires forall i :: 0 <= i < |ops| ==> !Touches(ops[i], a, safe)
    ensures Entry(ApplyAll(d, ops), a, safe) == Entry(d, a, safe)
    decreases |ops|
  {
    if ops != [] {
      hide Sanitize, FileName;
      var op := ops[0];
      if op.Store? || op.Remove? {
        NamesDistinct(a, safe, op.area, Sanitize(op.id));
      }
      assert !Touches(op, a, safe);
      assert forall i :: 0 <= i < |ops[1..]| ==> !Touches(ops[1..][i], a, safe);
      Untouched(Apply(d, op), ops[1..], a, safe);
    }
  }

  function LoadMetadata(d: Dir, id: string): Result<Metadata> {
    match Entry(d, Meta, Sanitize(id))
    case None => CacheMiss
    case Some(bs) => DecodeMetadata(bs)
  }

  function LoadLoader(d: Dir, id: string): Result<Buffer> {
    match Entry(d, Loader, Sanitize(id))
    case None => CacheMiss
    case Some(bs) => Loaded(bs)
  }

  function LookupCached(d: Dir, key: string): Result<Buffer> {
    match Entry(d, Lookup, Sanitize(key))
    case None => CacheMiss
    case Some(bs) => DecodeLookup(bs)
  }

  function LoadOrder(d: Dir, id: string): Result<seq<Buffer>> {
    match Entry(d, Dep, Sanitize(id))
    case None => CacheMiss
    case Some(bs) => DecodeOrder(bs)
  }

  predicate EmptyOrAbsent(e: Option<Buffer>) {
    e == None || e == Some([])
  }

  /** Nothing stored, nothing found: a miss, never an empty or corrupt value. An empty file is a miss too,
      except for loaders, whose bytes are not decoded. */
  lemma MissIff(d: Dir, id: string)
    ensures LoadMetadata(d, id) == CacheMiss <==> EmptyOrAbsent(Entry(d, Meta, Sanitize(id)))
    ensures LookupCached(d, id) == CacheMiss <==> EmptyOrAbsent(Entry(d, Lookup, Sanitize(id)))
    ensures LoadOrder(d, id) == CacheMiss <==> EmptyOrAbsent(Entry(d, Dep, Sanitize(id)))
    ensures LoadLoader(d, id) == CacheMiss <==> Entry(d, Loader, Sanitize(id)) == None
  {
    hide Entry, Sanitize, DecodeMetadata, DecodeLookup, DecodeOrder;
    forall bs ensures DecodeMetadata(bs) == CacheMiss <==> bs == [] {
      CacheLayout.MissesAndMagic(bs);
    }
    forall bs ensures DecodeLookup(bs) == CacheMiss <==> bs == [] {
      CacheLayout.LookupMisses(bs);
    }
    forall bs ensures DecodeOrder(bs) == CacheMiss <==> bs == [] {
      CacheLayout.OrderMisses(bs);
    }
  }

  /** After a removal everything but that one entry is as before, and that one is a miss. */
  lemma RemovedIsMissed(d: Dir, a: Area, id: string, b: Area, safe: string)
    ensures Entry(Apply(d, Remove(a, id)), b, safe) == if b == a && safe == Sanitize(id) then None else Entry(d, b, safe)
  {
    hide Sanitize, FileName;
    NamesDistinct(a, Sanitize(id), b, safe);
  }

  function StoreMetadata(id: string, m: Metadata): Op {
    Store(Meta, id, EncodeMetadata(m))
  }

  function StoreLookup(key: string, value: Buffer): Op {
    Store(Lookup, key, EncodeItem(Str(value)))
  }

  function StoreOrder(id: string, order: seq<Buffer>): Op {
    Store(Dep, id, EncodeOrder(order))
  }

  lemma StoredEntry(d: Dir, op: Op, later: seq<Op>)
    requires op.Store?
    requires forall i :: 0 <= i < |later| ==> !Touches(later[i], op.area, Sanitize(op.id))
    ensures Entry(ApplyAll(Apply(d, op), later), op.area, Sanitize(op.id)) == Some(op.bytes)
  {
    Untouched(Apply(d, op), later, op.area, Sanitize(op.id));
  }

  /** After storing metadata, any id with the same sanitized form loads it back, whatever
      unrelated operations happened since. */
  lemma StoredMetadataSurvives(d: Dir, id: string, m: Metadata, later: seq<Op>, id': string)
    requires Sanitize(id') == Sanitize(id)
    requires forall i :: 0 <= i < |later| ==> !Touches(later[i], Meta, Sanitize(id))
    ensures LoadMetadata(ApplyAll(Apply(d, StoreMetadata(id, m)), later), id') == Loaded(Clip(m))
  {
    hide EncodeMetadata, DecodeMetadata, Clip, Sanitize;
    StoredEntry(d, StoreMetadata(id, m), later);
    MetadataRoundTrip(m);
  }

  lemma StoredOrderSurvives(d: Dir, id: string, order: seq<Buffer>, later: seq<Op>, id': string)
    requires Sanitize(id') == Sanitize(id)
    requires forall i :: 0 <= i < |later| ==> !Touches(later[i], Dep, Sanitize(id))
    ensures LoadOrder(ApplyAll(Apply(d, StoreOrder(id, order)), later), id')
            == Loaded(ClipStrings(order[..|order| % TWO32]))
  {
    hide EncodeOrder, DecodeOrder, Sanitize;
    StoredEntry(d, StoreOrder(id, order), later);
    OrderRoundTrip(order);
  }

  lemma StoredLoaderAndLookupSurvive(d: Dir, id: string, bytes: Buffer, later: seq<Op>, id': string)
    requires Sanitize(id') == Sanitize(id)
    requires forall i :: 0 <= i < |later| ==>
               !Touches(later[i], Loader, Sanitize(id)) && !Touches(later[i], Lookup, Sanitize(id))
    ensures LoadLoader(ApplyAll(Apply(d, Store(Loader, id, bytes)), later), id') == Loaded(bytes)
    ensures LookupCached(ApplyAll(Apply(d, StoreLookup(id, bytes)), later), id') == Loaded(Clipped(bytes))
  {
    hide EncodeItem, DecodeLookup, Sanitize;
    StoredEntry(d, Store(Loader, id, bytes), later);
    StoredEntry(d, StoreLookup(id, bytes), later);
    LookupRoundTripIff(bytes);
  }
}
