/** DSPCache as an object: the serializers grow a buffer, the loaders advance a cursor, and the
    statistics are recomputed lazily behind a stale flag. File operations succeed. */
module DspCache {
  import opened Bytes
  import opened CacheCodec
  import opened CacheRecords
  import opened CacheDirectory
  import opened Wrappers

  // ----- serializers -----

  method SerializeItems(items: seq<Item>, out: Buffer) returns (buf: Buffer)
    ensures buf == out + EncodeItems(items)
  {
    hide EncodeItem;
    buf := out;
    assert items[0..] == items;
    for i := 0 to |items|
      invariant buf + EncodeItems(items[i..]) == out + EncodeItems(items)
    {
      assert items[i..][1..] == items[i + 1..];
      assert buf + EncodeItems(items[i..]) == (buf + EncodeItem(items[i])) + EncodeItems(items[i + 1..]);
      buf := buf + EncodeItem(items[i]);
    }
    assert items[|items|..] == [];
    assert buf + [] == buf;
  }

  method SerializeMetadata(m: Metadata) returns (buf: Buffer)
    ensures buf == EncodeMetadata(m)
  {
    hide EncodeItems;
    buf := SerializeItems(Head(m), []);
    assert [] + EncodeItems(Head(m)) == EncodeItems(Head(m));
    var cs := m.chipsets;
    assert cs[0..] == cs;
    for i := 0 to |cs|
      invariant buf + EncodeChipsets(cs[i..]) == EncodeMetadata(m)
    {
      assert cs[i..][1..] == cs[i + 1..];
      EncodeChipsetsStep(cs[i..]);
      var longer := SerializeItems(ChipsetItems(cs[i]), buf);
      assert longer + EncodeChipsets(cs[i + 1..]) == buf + EncodeChipsets(cs[i..]);
      buf := longer;
    }
    assert cs[|cs|..] == [];
    assert buf + [] == buf;
  }

  // ----- cursor-based readers -----

  /** One field at the cursor; on failure the cursor is not used again. */
  method ReadItem(k: Kind, data: Buffer, pos0: nat) returns (ok: bool, it: Item, pos: nat)
    requires pos0 <= |data|
    ensures pos <= |data| && (ok ==> KindOf(it) == k)
    ensures ok ==> DecodeItem(k, data[pos0..]) == Some(Read(it, data[pos..]))
    ensures !ok ==> DecodeItem(k, data[pos0..]) == None
  {
    pos, it, ok := pos0, U32(0), false;
    if pos + 4 > |data| {
      return;
    }
    var tail := data[pos..];
    assert tail[..4] == data[pos..pos + 4] && tail[4..] == data[pos + 4..];
    LeValueBound(tail[..4]);
    assert Pow256(4) == 256 * 256 * Pow256(2);
    var v := LeValue(data[pos..pos + 4]);
    pos := pos + 4;
    if k == KU32 {
      return true, U32(v), pos;
    }
    if pos + v > |data| {
      return;
    }
    assert data[pos..][..v] == data[pos..pos + v] && data[pos..][v..] == data[pos + v..];
    it := Str(data[pos..pos + v]);
    pos := pos + v;
    ok := true;
  }

  method ReadItems(kinds: seq<Kind>, data: Buffer, pos0: nat) returns (ok: bool, its: seq<Item>, pos: nat)
    requires pos0 <= |data|
    ensures pos <= |data|
    ensures ok ==> DecodeItems(kinds, data[pos0..]) == Some(Read(its, data[pos..]))
    ensures !ok ==> DecodeItems(kinds, data[pos0..]) == None
    decreases |kinds|
  {
    hide DecodeItem;
    pos, its, ok := pos0, [], true;
    if kinds != [] {
      var it;
      ok, it, pos := ReadItem(kinds[0], data, pos);
      if ok {
        ok, its, pos := ReadItems(kinds[1..], data, pos);
        its := [it] + its;
      }
    }
  }

  method DeserializeMetadata(buf: Buffer) returns (r: Result<Metadata>)
    ensures r == DecodeMetadata(buf)
  {
    hide DecodeItems;
    if buf == [] {
      return CacheMiss;
    }
    assert buf[0..] == buf;
    var ok, its, pos := ReadItems(HEAD_KINDS, buf, 0);
    if !ok {
      return Corrupt;
    }
    HeadShape(its);
    if its[0].v != MAGIC {
      return Corrupt;
    }
    var chipsets := ReadChipsets(its[18].v, buf, pos);
    r := Loaded(FromHead(its, chipsets));
  }

  method ReadChipsets(count: nat, data: Buffer, pos0: nat) returns (cs: seq<Chipset>)
    requires pos0 <= |data|
    ensures cs == DecodeChipsets(count, data[pos0..])
  {
    hide DecodeItems;
    cs := [];
    var pos: nat := pos0;
    var i := 0;
    while i < count
      invariant 0 <= i <= count && pos <= |data|
      invariant cs + DecodeChipsets(count - i, data[pos..]) == DecodeChipsets(count, data[pos0..])
    {
      var ok, its, next := ReadItems(CHIPSET_KINDS, data, pos);
      if !ok {
        assert cs + [] == cs;
        return;
      }
      assert DecodeChipsets(count - i, data[pos..]) == ChipsetFrom(its) + DecodeChipsets(count - i - 1, data[next..]);
      cs := cs + ChipsetFrom(its);
      pos, i := next, i + 1;
    }
    assert cs + [] == cs;
  }

  method DeserializeOrder(buf: Buffer) returns (r: Result<seq<Buffer>>)
    ensures r == DecodeOrder(buf)
  {
    hide DecodeStrings;
    if buf == [] {
      return CacheMiss;
    }
    assert buf[0..] == buf;
    var ok, it, pos := ReadItem(KU32, buf, 0);
    if !ok {
      return Corrupt;
    }
    var done, order := ReadStrings(it.v, buf, pos);
    r := if done then Loaded(order) else Corrupt;
  }

  method ReadStrings(count: nat, data: Buffer, pos0: nat) returns (ok: bool, order: seq<Buffer>)
    requires pos0 <= |data|
    ensures DecodeStrings(count, data[pos0..]) == if ok then Some(order) else None
  {
    hide DecodeItem;
    order := [];
    assert forall ss: seq<Buffer> :: order + ss == ss;
    var pos: nat := pos0;
    var i := 0;
    while i < count
      invariant 0 <= i <= count && pos <= |data|
      invariant DecodeStrings(count, data[pos0..]) ==
                match DecodeStrings(count - i, data[pos..]) case None => None case Some(ss) => Some(order + ss)
    {
      var found, it, next := ReadItem(KStr, data, pos);
      if !found {
        return false, order;
      }
      assert forall ss: seq<Buffer> :: order + ([it.s] + ss) == order + [it.s] + ss;
      order := order + [it.s];
      pos, i := next, i + 1;
    }
    assert order + [] == order;
    ok := true;
  }

  // ----- statistics -----

  /** Sum of the sizes of the named files. */
  ghost function TotalSize(d: Dir, names: set<string>): nat
    requires names <= d.Keys
  {
    if names == {} then 0
    else
      var n :| n in names;
      |d[n]| + TotalSize(d, names - {n})
  }

  lemma {:induction false} TotalSizeSplit(d: Dir, names: set<string>, n: string)
    requires names <= d.Keys && n in names
    ensures TotalSize(d, names) == |d[n]| + TotalSize(d, names - {n})
    decreases |names|
  {
    var k :| k in names && TotalSize(d, names) == |d[k]| + TotalSize(d, names - {k});
    if k != n {
      TotalSizeSplit(d, names - {k}, n);
      TotalSizeSplit(d, names - {n}, k);
      assert names - {k} - {n} == names - {n} - {k};
    }
  }

  lemma TotalSizeStep(d: Dir, seen: set<string>, n: string)
    requires seen <= d.Keys && n in d && n !in seen
    ensures Add64(Wrap64(TotalSize(d, seen)), |d[n]|) == Wrap64(TotalSize(d, seen + {n}))
  {
    TotalSizeSplit(d, seen + {n}, n);
    assert seen + {n} - {n} == seen;
    Add64Wrapped(TotalSize(d, seen), |d[n]|);
  }

  /** The directory scan, in any order. */
  method ScanSizes(d: Dir) returns (size: uint64, count: nat)
    ensures size == Wrap64(TotalSize(d, d.Keys)) && count == |d|
  {
    size, count := 0, 0;
    assert Wrap64(TotalSize(d, {})) == 0;
    hide Wrap64, Add64, TotalSize;
    var todo := d.Keys;
    ghost var seen: set<string> := {};
    while todo != {}
      invariant seen <= d.Keys && todo == d.Keys - seen
      invariant size == Wrap64(TotalSize(d, seen)) && count == |seen|
    {
      var n :| n in todo;
      TotalSizeStep(d, seen, n);
      size := Add64(size, |d[n]|);
      count := count + 1;
      seen, todo := seen + {n}, todo - {n};
    }
    assert seen == d.Keys;
  }

  // ----- the cache object -----

  class Cache {
    var dir: Dir
    var dirExists: bool
    var sizeBytes: uint64
    var entryCount: nat
    var statsStale: bool

    /** A fresh count of the directory, as a full scan would make it. */
    ghost function FreshSize(): uint64
      reads this
    {
      Wrap64(TotalSize(dir, dir.Keys))
    }

    ghost predicate Valid()
      reads this
    {
      && (!dirExists ==> dir == map[])
      && (!statsStale ==> sizeBytes == FreshSize() && entryCount == |dir|)
    }

    /** A cache over a directory that may exist already, with any content. */
    constructor (existing: Option<Dir>)
      ensures Valid()
      ensures dir == if existing.Some? then existing.value else map[]
    {
      dir := if existing.Some? then existing.value else map[];
      dirExists := existing.Some?;
      sizeBytes, entryCount, statsStale := 0, 0, true;
    }

    method RefreshStats()
      requires Valid()
      modifies this`sizeBytes, this`entryCount, this`statsStale
      ensures Valid() && !statsStale
    {
      sizeBytes, entryCount := 0, 0;
      if !dirExists {
        statsStale := false;
        return;
      }
      sizeBytes, entryCount := ScanSizes(dir);
      statsStale := false;
    }

    method WriteFile(area: Area, id: string, bytes: Buffer)
      requires Valid()
      modifies this
      ensures Valid() && dir == Apply(old(dir), Store(area, id, bytes))
    {
      dirExists := true;
      dir := dir[FileName(area, Sanitize(id)) := bytes];
      statsStale := true;
    }

    method RemoveFile(area: Area, id: string)
      requires Valid()
      modifies this
      ensures Valid() && dir == Apply(old(dir), Remove(area, id))
    {
      var name := FileName(area, Sanitize(id));
      if name in dir {
        dir := dir - {name};
        statsStale := true;
      } else {
        assert dir - {name} == dir;
      }
    }

    method CacheMetadata(id: string, m: Metadata)
      requires Valid()
      modifies this
      ensures Valid() && dir == Apply(old(dir), StoreMetadata(id, m))
    {
      var buf := SerializeMetadata(m);
      WriteFile(Meta, id, buf);
    }

    method LoadMetadata(id: string) returns (r: Result<Metadata>)
      ensures r == CacheDirectory.LoadMetadata(dir, id)
    {
      var name := FileName(Meta, Sanitize(id));
      var buf: Buffer := if name in dir then dir[name] else [];
      r := DeserializeMetadata(buf);
    }

    method InvalidateMetadata(id: string)
      requires Valid()
      modifies this
      ensures Valid() && dir == Apply(old(dir), Remove(Meta, id))
    {
      RemoveFile(Meta, id);
    }

    method CacheLoader(id: string, data: Buffer)
      requires Valid()
      modifies this
      ensures Valid() && dir == Apply(old(dir), Store(Loader, id, data))
    {
      WriteFile(Loader, id, data);
    }

    method LoadLoader(id: string) returns (r: Result<Buffer>)
      ensures r == CacheDirectory.LoadLoader(dir, id)
    {
      var name := FileName(Loader, Sanitize(id));
      var data: Buffer := if name in dir then dir[name] else [];
      if data == [] && name !in dir {
        return CacheMiss;
      }
      r := Loaded(data);
    }

    method InvalidateLoader(id: string)
      requires Valid()
      modifies this
      ensures Valid() && dir == Apply(old(dir), Remove(Loader, id))
    {
      RemoveFile(Loader, id);
    }

    method CacheLookup(key: string, value: Buffer)
      requires Valid()
      modifies this
      ensures Valid() && dir == Apply(old(dir), StoreLookup(key, value))
    {
      WriteFile(Lookup, key, EncodeItem(Str(value)));
    }

    method LookupCached(key: string) returns (r: Result<Buffer>)
      ensures r == CacheDirectory.LookupCached(dir, key)
    {
      var name := FileName(Lookup, Sanitize(key));
      var buf: Buffer := if name in dir then dir[name] else [];
      if buf == [] {
        return CacheMiss;
      }
      assert buf[0..] == buf;
      var ok, it, _ := ReadItem(KStr, buf, 0);
      r := if ok then Loaded(it.s) else Corrupt;
    }

    method CacheDependencyResolution(id: string, order: seq<Buffer>)
      requires Valid()
      modifies this
      ensures Valid() && dir == Apply(old(dir), StoreOrder(id, order))
    {
      var buf := SerializeItems(Strings(order), LeBytes(|order| % TWO32, 4));
      WriteFile(Dep, id, buf);
    }

    method LoadDependencyResolution(id: string) returns (r: Result<seq<Buffer>>)
      ensures r == LoadOrder(dir, id)
    {
      var name := FileName(Dep, Sanitize(id));
      var buf: Buffer := if name in dir then dir[name] else [];
      r := DeserializeOrder(buf);
    }

    method Clear()
      requires Valid()
      modifies this
      ensures Valid() && dir == Apply(old(dir), CacheDirectory.Clear)
      ensures old(dirExists) ==> !statsStale && sizeBytes == 0 && entryCount == 0
      ensures !old(dirExists) ==> unchanged(this)
    {
      if !dirExists {
        return;
      }
      dir := map[];
      assert TotalSize(dir, dir.Keys) == 0;
      sizeBytes, entryCount, statsStale := 0, 0, false;
    }

    /** Removes the files older than a limit, here an arbitrary set of names. */
    method Prune(expired: set<string>)
      requires Valid()
      modifies this
      ensures Valid() && dir == Apply(old(dir), CacheDirectory.Prune(expired))
    {
      if !dirExists {
        assert dir - expired == dir;
        return;
      }
      dir := dir - expired;
      statsStale := true;
    }

    method Rebuild()
      requires Valid()
      modifies this
      ensures Valid() && dir == old(dir)
    {
      dirExists := true;
      statsStale := true;
      RefreshStats();
    }

    method CacheSizeBytes() returns (size: uint64)
      requires Valid()
      modifies this`sizeBytes, this`entryCount, this`statsStale
      ensures Valid() && size == FreshSize()
      ensures dir == map[] ==> size == 0
    {
      if statsStale {
        RefreshStats();
      }
      size := sizeBytes;
    }

    method CacheEntryCount() returns (count: nat)
      requires Valid()
      modifies this`sizeBytes, this`entryCount, this`statsStale
      ensures Valid() && count == |dir|
    {
      if statsStale {
        RefreshStats();
      }
      count := entryCount;
    }

    method IsWarm() returns (warm: bool)
      requires Valid()
      modifies this`sizeBytes, this`entryCount, this`statsStale
      ensures Valid() && (warm <==> dir != map[])
    {
      var count := CacheEntryCount();
      assert |dir| == 0 <==> dir == map[];
      warm := count > 0;
    }
  }
}
