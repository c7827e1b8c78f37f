/** Bytes and fixed-width integers on a little-endian host. */
module Bytes {

  type byte = x: int | 0 <= x < 0x100
  type uint16 = x: int | 0 <= x < 0x1_0000
  type uint32 = x: int | 0 <= x < 0x1_0000_0000
  type uint64 = x: int | 0 <= x < 0x1_0000_0000_0000_0000
  type Buffer = seq<byte>

  const TWO32: int := 0x1_0000_0000
  const TWO63: int := 0x8000_0000_0000_0000
  const TWO64: int := 0x1_0000_0000_0000_0000

  /** Addition of two 64-bit unsigned integers, wrapping. */
  function Add64(a: uint64, b: int): uint64 {
    (a + b) % TWO64
  }

  /** Subtraction of two 64-bit unsigned integers, wrapping. */
  function Sub64(a: uint64, b: uint64): uint64 {
    (a - b) % TWO64
  }

  function Wrap64(n: nat): uint64 {
    n % TWO64
  }

  lemma Add64Exact(a: uint64, b: nat)
    requires a + b < TWO64
    ensures Add64(a, b) == a + b
  {
  }

  lemma Sub64Exact(a: uint64, b: uint64)
    requires b <= a
    ensures Sub64(a, b) == a - b
  {
  }

  lemma Add64Wrapped(n: nat, b: nat)
    ensures Add64(Wrap64(n), b) == Wrap64(n + b)
  {
    var q := n / TWO64;
    assert n + b == (n % TWO64 + b) + q * TWO64;
  }

  ghost function Pow256(n: nat): nat {
    if n == 0 then 1 else 256 * Pow256(n - 1)
  }

  /** Value of a byte string, least significant byte first. */
  function LeValue(bs: Buffer): nat {
    if bs == [] then 0 else bs[0] + 256 * LeValue(bs[1..])
  }

  /** Value of a byte string, most significant byte first. */
  function BeValue(bs: Buffer): nat {
    if bs == [] then 0 else 256 * BeValue(bs[..|bs| - 1]) + bs[|bs| - 1]
  }

  /** The n low-order bytes of v as they lie in memory. */
  function LeBytes(v: nat, n: nat): (bs: Buffer)
    ensures |bs| == n
  {
    if n == 0 then [] else [v % 256] + LeBytes(v / 256, n - 1)
  }

  function Reverse(bs: Buffer): (r: Buffer)
    ensures |r| == |bs|
    ensures forall i :: 0 <= i < |bs| ==> r[i] == bs[|bs| - 1 - i]
  {
    if bs == [] then [] else Reverse(bs[1..]) + [bs[0]]
  }

  lemma {:induction false} LeValueBound(bs: Buffer)
    ensures LeValue(bs) < Pow256(|bs|)
  {
    if bs != [] {
      LeValueBound(bs[1..]);
    }
  }

  lemma DivMod256(low: byte, high: nat)
    ensures (low + 256 * high) % 256 == low && (low + 256 * high) / 256 == high
  {
  }

  lemma {:induction false} BytesOfValue(bs: Buffer)
    ensures LeBytes(LeValue(bs), |bs|) == bs
  {
    if bs != [] {
      BytesOfValue(bs[1..]);
      DivMod256(bs[0], LeValue(bs[1..]));
    }
  }

  lemma {:induction false} ValueOfBytes(v: nat, n: nat)
    requires v < Pow256(n)
    ensures LeValue(LeBytes(v, n)) == v
  {
    if n > 0 {
      ValueOfBytes(v / 256, n - 1);
      assert LeBytes(v, n)[1..] == LeBytes(v / 256, n - 1);
    }
  }

  lemma {:induction false} BeIsReversedLe(bs: Buffer)
    ensures BeValue(bs) == LeValue(Reverse(bs))
  {
    if bs != [] {
      var init := bs[..|bs| - 1];
      BeIsReversedLe(init);
      assert Reverse(bs) == [bs[|bs| - 1]] + Reverse(init);
      assert Reverse(bs)[1..] == Reverse(init);
    }
  }

  /** Reversing the bytes of an n-byte integer. */
  function ByteSwap(v: nat, n: nat): nat {
    LeValue(Reverse(LeBytes(v, n)))
  }

  const BIG: byte := 2

  /** An n-byte read: copy into a host integer, swap when the file is big-endian. */
  function ReadUint(p: Buffer, endian: byte): (v: nat)
  {
    var val := LeValue(p);
    if endian == BIG then ByteSwap(val, |p|) else val
  }

  /** The read has the value the file's own byte order gives the bytes. */
  lemma ReadUintIsFileOrder(p: Buffer, endian: byte)
    ensures ReadUint(p, endian) == if endian == BIG then BeValue(p) else LeValue(p)
    ensures ReadUint(p, endian) < Pow256(|p|)
  {
    BytesOfValue(p);
    BeIsReversedLe(p);
    LeValueBound(p);
    LeValueBound(Reverse(p));
  }

  /** Byte order 1 puts the low byte first, byte order 2 the high byte. */
  lemma TwoBytes(a: byte, b: byte)
    ensures ReadUint([a, b], 1) == a + 256 * b
    ensures ReadUint([a, b], 2) == 256 * a + b
  {
    ReadUintIsFileOrder([a, b], 1);
    ReadUintIsFileOrder([a, b], 2);
    assert LeValue([a, b]) == a + 256 * LeValue([b]) && LeValue([b]) == b;
    assert BeValue([a, b]) == 256 * BeValue([a]) + b && BeValue([a]) == a;
    hide ReadUint;
  }

  // ----- encodings -----

  /** The bytes of v in a field of the given width. */
  function Encoded(v: nat, width: nat, endian: byte): (bs: Buffer)
    ensures |bs| == width
  {
    if endian == BIG then Reverse(LeBytes(v, width)) else LeBytes(v, width)
  }

  lemma EncodedOfRead(p: Buffer, endian: byte)
    ensures Encoded(ReadUint(p, endian), |p|, endian) == p
  {
    if endian == BIG {
      BytesOfValue(p);
      BytesOfValue(Reverse(p));
      assert Reverse(Reverse(p)) == p;
    } else {
      BytesOfValue(p);
    }
  }

  lemma ReadOfEncoded(v: nat, width: nat, endian: byte)
    requires v < Pow256(width)
    ensures ReadUint(Encoded(v, width, endian), endian) == v
  {
    var le := LeBytes(v, width);
    ValueOfBytes(v, width);
    if endian == BIG {
      BytesOfValue(Reverse(le));
      assert Reverse(Reverse(le)) == le;
    }
  }

  /** Reading inverts encoding: a field reads as v exactly when its bytes are the encoding of v
      and v fits the field. */
  lemma ReadIffEncoded(p: Buffer, v: nat, endian: byte)
    ensures ReadUint(p, endian) == v <==> p == Encoded(v, |p|, endian) && v < Pow256(|p|)
  {
    hide ReadUint, Encoded, Pow256;
    ReadUintIsFileOrder(p, endian);
    EncodedOfRead(p, endian);
    if v < Pow256(|p|) {
      ReadOfEncoded(v, |p|, endian);
    }
  }
}
