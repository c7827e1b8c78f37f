/** The DSPCache binary formats: 32-bit little-endian integers and length-prefixed strings.
    Strings are byte strings. */
module CacheCodec {
  import opened Bytes
  import opened Wrappers

  /** A serialized value: an unsigned 32-bit integer or a string. */
  datatype Item = U32(v: uint32) | Str(s: Buffer)

  datatype Kind = KU32 | KStr

  /** The decoder stops here, with the items read and the bytes not read. */
  datatype Read<T> = Read(value: T, rest: Buffer)

  function KindOf(it: Item): Kind {
    if it.U32? then KU32 else KStr
  }

  function KindsOf(items: seq<Item>): (kinds: seq<Kind>)
    ensures |kinds| == |items|
    ensures forall i :: 0 <= i < |items| ==> kinds[i] == KindOf(items[i])
  {
    seq(|items|, i requires 0 <= i < |items| => KindOf(items[i]))
  }

  /** The 32-bit length field keeps the low bits of the size only. */
  function Clipped(s: Buffer): Buffer {
    s[..|s| % TWO32]
  }

  function ClipItem(it: Item): Item {
    match it
    case U32(v) => it
    case Str(s) => Str(Clipped(s))
  }

  function ClipItems(items: seq<Item>): (r: seq<Item>)
    ensures |r| == |items|
    ensures forall i :: 0 <= i < |items| ==> r[i] == ClipItem(items[i])
  {
    seq(|items|, i requires 0 <= i < |items| => ClipItem(items[i]))
  }

  // ----- one item -----

  function EncodeItem(it: Item): Buffer {
    match it
    case U32(v) => LeBytes(v, 4)
    case Str(s) => LeBytes(|s| % TWO32, 4) + Clipped(s)
  }

  function DecodeU32(bs: Buffer): Option<Read<uint32>> {
    if |bs| < 4 then None
    else
      LeValueBound(bs[..4]);
      assert Pow256(4) == 256 * 256 * Pow256(2);
      Some(Read(LeValue(bs[..4]), bs[4..]))
  }

  function DecodeItem(k: Kind, bs: Buffer): Option<Read<Item>> {
    match DecodeU32(bs)
    case None => None
    case Some(Read(v, rest)) =>
      if k == KU32 then Some(Read(U32(v), rest))
      else if v > |rest| then None
      else Some(Read(Str(rest[..v]), rest[v..]))
  }

  lemma DecodeU32Encoded(v: uint32, rest: Buffer)
    ensures DecodeU32(LeBytes(v, 4) + rest) == Some(Read(v, rest))
  {
    var bs := LeBytes(v, 4) + rest;
    assert bs[..4] == LeBytes(v, 4) && bs[4..] == rest;
    assert Pow256(4) == 256 * 256 * Pow256(2);
    ValueOfBytes(v, 4);
  }

  /** An item decodes to itself, a string to its clipped form, and nothing after it is touched. */
  lemma DecodeItemEncoded(it: Item, rest: Buffer)
    ensures DecodeItem(KindOf(it), EncodeItem(it) + rest) == Some(Read(ClipItem(it), rest))
  {
    match it
    case U32(v) => DecodeU32Encoded(v, rest);
    case Str(s) =>
      var n := |s| % TWO32;
      assert EncodeItem(it) + rest == LeBytes(n, 4) + (Clipped(s) + rest);
      DecodeU32Encoded(n, Clipped(s) + rest);
      assert (Clipped(s) + rest)[..n] == Clipped(s) && (Clipped(s) + rest)[n..] == rest;
  }

  /** Every strict prefix of an encoded item is rejected. */
  lemma DecodeItemTruncated(it: Item, n: nat)
    requires n < |EncodeItem(it)|
    ensures DecodeItem(KindOf(it), EncodeItem(it)[..n]) == None
  {
    if it.Str? && n >= 4 {
      var len := |it.s| % TWO32;
      var bs := EncodeItem(it)[..n];
      assert bs == LeBytes(len, 4) + bs[4..];
      DecodeU32Encoded(len, bs[4..]);
    }
  }

  // ----- item lists -----

  function EncodeItems(items: seq<Item>): Buffer {
    if items == [] then [] else EncodeItem(items[0]) + EncodeItems(items[1..])
  }

  function DecodeItems(kinds: seq<Kind>, bs: Buffer): (r: Option<Read<seq<Item>>>)
    ensures r.Some? ==> KindsOf(r.value.value) == kinds
    decreases |kinds|
  {
    if kinds == [] then Some(Read([], bs))
    else
      match DecodeItem(kinds[0], bs)
      case None => None
      case Some(Read(it, rest)) =>
        match DecodeItems(kinds[1..], rest)
        case None => None
        case Some(Read(its, rest')) => Some(Read([it] + its, rest'))
  }

  lemma ItemsStep(items: seq<Item>)
    requires items != []
    ensures KindsOf(items) == [KindOf(items[0])] + KindsOf(items[1..])
    ensures ClipItems(items) == [ClipItem(items[0])] + ClipItems(items[1..])
  {
    hide KindOf, ClipItem;
  }

  lemma DecodeStep(k: Kind, kinds: seq<Kind>, bs: Buffer, it: Item, mid: Buffer, its: seq<Item>, rest: Buffer)
    requires DecodeItem(k, bs) == Some(Read(it, mid)) && DecodeItems(kinds, mid) == Some(Read(its, rest))
    ensures DecodeItems([k] + kinds, bs) == Some(Read([it] + its, rest))
  {
    hide DecodeItem;
    assert ([k] + kinds)[1..] == kinds;
  }

  lemma {:induction false} DecodeItemsEncoded(items: seq<Item>, rest: Buffer)
    ensures DecodeItems(KindsOf(items), EncodeItems(items) + rest) == Some(Read(ClipItems(items), rest))
    decreases |items|
  {
    if items == [] {
      assert EncodeItems(items) + rest == rest;
    } else {
      hide DecodeItem, EncodeItem, ClipItem, KindOf, KindsOf, ClipItems, DecodeItems;
      var tail := EncodeItems(items[1..]) + rest;
      assert EncodeItems(items) + rest == EncodeItem(items[0]) + tail;
      DecodeItemEncoded(items[0], tail);
      DecodeItemsEncoded(items[1..], rest);
      ItemsStep(items);
      DecodeStep(KindOf(items[0]), KindsOf(items[1..]), EncodeItem(items[0]) + tail, ClipItem(items[0]), tail,
                 ClipItems(items[1..]), rest);
    }
  }

  lemma {:induction false} DecodeItemsTruncated(items: seq<Item>, n: nat)
    requires n < |EncodeItems(items)|
    ensures DecodeItems(KindsOf(items), EncodeItems(items)[..n]) == None
    decreases |items|
  {
    hide DecodeItem, EncodeItem, ClipItem, KindOf;
    var first, tail := EncodeItem(items[0]), EncodeItems(items[1..]);
    var bs := EncodeItems(items)[..n];
    if n < |first| {
      assert bs == first[..n];
      DecodeItemTruncated(items[0], n);
    } else {
      assert bs == first + tail[..n - |first|];
      DecodeItemEncoded(items[0], tail[..n - |first|]);
      DecodeItemsTruncated(items[1..], n - |first|);
      assert KindsOf(items)[1..] == KindsOf(items[1..]);
    }
  }
}
