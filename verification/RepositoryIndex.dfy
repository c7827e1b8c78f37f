/** Inverted indexes: for every key, the places that mention it. */
module RepositoryIndex {
  import opened Sequences

  /** The position-th key of a package: a pointer into a package, or to the package itself. */
  datatype Ref = Ref(id: string, position: nat)

  type Index = map<string, seq<Ref>>
  type Keys = map<string, seq<string>>

  function Listed(index: Index, k: string): seq<Ref> {
    if k in index then index[k] else []
  }

  predicate Mentions(keys: Keys, k: string, r: Ref) {
    r.id in keys && r.position < |keys[r.id]| && keys[r.id][r.position] == k
  }

  /** Under each key every mention is listed exactly once and nothing else is listed. */
  ghost predicate Indexes(index: Index, keys: Keys) {
    forall k ::
      && (forall r :: r in Listed(index, k) <==> Mentions(keys, k, r))
      && Distinct(Listed(index, k))
  }

  /** While a package is being added: its first n keys are in. */
  ghost predicate IndexesPart(index: Index, keys: Keys, id: string, own: seq<string>, n: nat)
    requires n <= |own|
  {
    Indexes(index, keys[id := own[..n]])
  }

  lemma PushKeepsIndex(index: Index, keys: Keys, id: string, own: seq<string>, n: nat)
    requires n < |own|
    requires IndexesPart(index, keys, id, own, n)
    ensures IndexesPart(index[own[n] := Listed(index, own[n]) + [Ref(id, n)]], keys, id, own, n + 1)
  {
    var index2 := index[own[n] := Listed(index, own[n]) + [Ref(id, n)]];
    var before, after := keys[id := own[..n]], keys[id := own[..n + 1]];
    forall k
      ensures forall r :: r in Listed(index2, k) <==> Mentions(after, k, r)
      ensures Distinct(Listed(index2, k))
    {
      assert forall r :: Mentions(after, k, r) <==> Mentions(before, k, r) || (k == own[n] && r == Ref(id, n));
      assert !Mentions(before, k, Ref(id, n));
      assert forall r :: r in Listed(index, k) <==> Mentions(before, k, r);
    }
  }

  /** The source's loop over one package's keys. */
  method AddKeys(index: Index, ghost keys: Keys, id: string, own: seq<string>) returns (out: Index)
    requires Indexes(index, keys) && id !in keys
    ensures Indexes(out, keys[id := own])
  {
    out := index;
    assert IndexesPart(out, keys, id, own, 0) by {
      forall k, r ensures Mentions(keys, k, r) <==> Mentions(keys[id := own[..0]], k, r) {
      }
    }
    for i := 0 to |own|
      invariant IndexesPart(out, keys, id, own, i)
    {
      PushKeepsIndex(out, keys, id, own, i);
      hide *;
      out := out[own[i] := Listed(out, own[i]) + [Ref(id, i)]];
    }
    assert own[..|own|] == own;
  }

  lemma EmptyIndexes()
    ensures Indexes(map[], map[]) && ListsPlaces([], map[])
  {
  }

  // ----- flat lists -----

  type Counts = map<string, nat>

  /** Every place of every package is listed exactly once and nothing else is listed. */
  ghost predicate ListsPlaces(list: seq<Ref>, counts: Counts) {
    && (forall r :: r in list <==> r.id in counts && r.position < counts[r.id])
    && Distinct(list)
  }

  lemma PushKeepsPlaces(list: seq<Ref>, counts: Counts, id: string, n: nat)
    requires ListsPlaces(list, counts[id := n])
    ensures ListsPlaces(list + [Ref(id, n)], counts[id := n + 1])
  {
    assert Ref(id, n) !in list;
    assert forall r :: r in list + [Ref(id, n)] <==> r in list || r == Ref(id, n);
  }

  lemma NoPlacesYet(list: seq<Ref>, counts: Counts, id: string)
    requires ListsPlaces(list, counts) && id !in counts
    ensures ListsPlaces(list, counts[id := 0])
  {
    hide Distinct;
  }

  method AddPlaces(list: seq<Ref>, ghost counts: Counts, id: string, n: nat) returns (out: seq<Ref>)
    requires ListsPlaces(list, counts) && id !in counts
    ensures ListsPlaces(out, counts[id := n])
  {
    hide ListsPlaces;
    out := list;
    NoPlacesYet(list, counts, id);
    for i := 0 to n
      invariant ListsPlaces(out, counts[id := i])
    {
      PushKeepsPlaces(out, counts, id, i);
      out := out + [Ref(id, i)];
    }
  }

  /** Every listed reference points into a package that is there, at a place holding the key. */
  lemma ReferenceIsLive(index: Index, keys: Keys, k: string, i: nat)
    requires Indexes(index, keys) && i < |Listed(index, k)|
    ensures var r := Listed(index, k)[i];
            r.id in keys && r.position < |keys[r.id]| && keys[r.id][r.position] == k
  {
    var r := Listed(index, k)[i];
    assert r in Listed(index, k);
    assert Mentions(keys, k, r);
  }

  function Ids(refs: seq<Ref>): set<string> {
    set r | r in refs :: r.id
  }

  /** What a lookup finds: exactly the packages having the key. */
  lemma LookupIds(index: Index, keys: Keys, k: string)
    requires Indexes(index, keys)
    ensures Ids(Listed(index, k)) == set id | id in keys && k in keys[id]
  {
    var s := set id | id in keys && k in keys[id];
    forall id | id in Ids(Listed(index, k)) ensures id in s {
      var r :| r in Listed(index, k) && r.id == id;
      assert Mentions(keys, k, r);
    }
    forall id | id in s ensures id in Ids(Listed(index, k)) {
      var i :| 0 <= i < |keys[id]| && keys[id][i] == k;
      assert Mentions(keys, k, Ref(id, i));
    }
  }
}
