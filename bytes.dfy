/** Bytes, fixed-width unsigned integers and the two ELF byte orders.
    Multi-byte integers are read as in Go's encoding/binary: little-endian
    (ELFDATA2LSB) puts the least significant byte first, big-endian
    (ELFDATA2MSB) the most significant byte first. */
module Bytes {

  type byte = x: int | 0 <= x < 0x100

  datatype ByteOrder = LittleEndian | BigEndian

  // Go's unsigned integer types.
  type u8 = x: int | 0 <= x < 0x100
  type u16 = x: int | 0 <= x < 0x1_0000
  type u32 = x: int | 0 <= x < 0x1_0000_0000
  type u64 = x: int | 0 <= x < 0x1_0000_0000_0000_0000

  /** 256^n, the number of values an n-byte unsigned integer can hold. */
  function Pow256(n: nat): (p: nat)
    ensures p >= 1
  {
    if n == 0 then 1 else 256 * Pow256(n - 1)
  }

  /** The value of b read least significant byte first. */
  function Le(b: seq<byte>): nat
  {
    if b == [] then 0 else b[0] + 256 * Le(b[1..])
  }

  /** The value of b read most significant byte first. */
  function Be(b: seq<byte>): nat
  {
    if b == [] then 0 else 256 * Be(b[..|b| - 1]) + b[|b| - 1]
  }

  function Reverse(b: seq<byte>): (r: seq<byte>)
    ensures |r| == |b|
    ensures forall i :: 0 <= i < |b| ==> r[i] == b[|b| - 1 - i]
  {
    if b == [] then [] else Reverse(b[1..]) + [b[0]]
  }

  /** The value of the unsigned integer stored in b in byte order o. */
  function UInt(o: ByteOrder, b: seq<byte>): nat
  {
    match o
    case LittleEndian => Le(b)
    case BigEndian => Le(Reverse(b))
  }

  /** The n least significant bytes of x, least significant first. */
  function EncLe(x: nat, n: nat): (b: seq<byte>)
    ensures |b| == n
  {
    if n == 0 then [] else [x % 256] + EncLe(x / 256, n - 1)
  }

  /** x stored as an n-byte unsigned integer in byte order o. */
  function EncUInt(o: ByteOrder, x: nat, n: nat): (b: seq<byte>)
    ensures |b| == n
  {
    match o
    case LittleEndian => EncLe(x, n)
    case BigEndian => Reverse(EncLe(x, n))
  }

  lemma Pow256Widths()
    ensures Pow256(1) == 0x100 && Pow256(2) == 0x1_0000
    ensures Pow256(4) == 0x1_0000_0000 && Pow256(8) == 0x1_0000_0000_0000_0000
  {
  }

  lemma {:induction false} LeBound(b: seq<byte>)
    ensures Le(b) < Pow256(|b|)
  {
    if b != [] {
      LeBound(b[1..]);
    }
  }

  lemma {:induction false} BeBound(b: seq<byte>)
    ensures Be(b) < Pow256(|b|)
  {
    if b != [] {
      BeBound(b[..|b| - 1]);
    }
  }

  lemma {:induction false} ReverseReverse(b: seq<byte>)
    ensures Reverse(Reverse(b)) == b
  {
    var r := Reverse(Reverse(b));
    assert |r| == |b|;
    forall i | 0 <= i < |b| ensures r[i] == b[i] {
    }
  }

  /** Reading most significant byte first is reading the reversed bytes
      least significant byte first. */
  lemma {:induction false} BeIsReversedLe(b: seq<byte>)
    ensures Be(b) == Le(Reverse(b))
  {
    if b != [] {
      var front := b[..|b| - 1];
      BeIsReversedLe(front);
      assert Reverse(b)[1..] == Reverse(front);
    }
  }

  /** Every value read from n bytes fits in n bytes. */
  lemma UIntBound(o: ByteOrder, b: seq<byte>)
    ensures UInt(o, b) < Pow256(|b|)
  {
    match o
    case LittleEndian => LeBound(b);
    case BigEndian => LeBound(Reverse(b));
  }

  lemma {:induction false} LeEncLe(x: nat, n: nat)
    requires x < Pow256(n)
    ensures Le(EncLe(x, n)) == x
  {
    if n > 0 {
      LeEncLe(x / 256, n - 1);
      assert EncLe(x, n)[1..] == EncLe(x / 256, n - 1);
    }
  }

  lemma {:induction false} EncLeLe(b: seq<byte>)
    ensures EncLe(Le(b), |b|) == b
  {
    if b != [] {
      var x := Le(b);
      assert x % 256 == b[0] && x / 256 == Le(b[1..]);
      EncLeLe(b[1..]);
    }
  }

  /** Decoding what was encoded gives the value back. */
  lemma DecodeEncode(o: ByteOrder, x: nat, n: nat)
    requires x < Pow256(n)
    ensures UInt(o, EncUInt(o, x, n)) == x
  {
    LeEncLe(x, n);
    if o == BigEndian {
      ReverseReverse(EncLe(x, n));
    }
  }

  /** Encoding what was decoded gives the bytes back. */
  lemma EncodeDecode(o: ByteOrder, b: seq<byte>)
    ensures EncUInt(o, UInt(o, b), |b|) == b
  {
    match o
    case LittleEndian => EncLeLe(b);
    case BigEndian =>
      EncLeLe(Reverse(b));
      ReverseReverse(b);
  }

  // Go's fixed-width arithmetic, written out.

  const TWO16: nat := 0x1_0000
  const TWO32: nat := 0x1_0000_0000
  const TWO63: nat := 0x8000_0000_0000_0000
  const TWO64: nat := 0x1_0000_0000_0000_0000

  /** The result of a uint16 operation whose exact value is x. */
  function Wrap16(x: nat): (r: nat)
    ensures r < TWO16
    ensures x < TWO16 ==> r == x
  {
    x % TWO16
  }

  /** The result of a uint32 operation whose exact value is x. */
  function Wrap32(x: nat): (r: nat)
    ensures r < TWO32
    ensures x < TWO32 ==> r == x
  {
    x % TWO32
  }

  /** The result of a uint64 operation whose exact value is x. */
  function Wrap64(x: nat): (r: nat)
    ensures r < TWO64
    ensures x < TWO64 ==> r == x
  {
    x % TWO64
  }

  /** Go's int64(x) for a uint64 x: two's-complement reinterpretation. */
  function ToInt64(x: nat): (r: int)
    requires x < TWO64
    ensures -(TWO63 as int) <= r < TWO63
    ensures r >= 0 <==> x < TWO63
    ensures r >= 0 ==> r == x
  {
    if x < TWO63 then x else x - TWO64
  }

  /** 256^n is even for n > 0, so its half is exact. */
  lemma HalfPow256(n: nat)
    requires n > 0
    ensures Pow256(n) == 2 * (Pow256(n) / 2)
  {
    assert Pow256(n) == 256 * Pow256(n - 1);
  }

  /** An n-byte two's-complement value stored as the unsigned x. */
  function ToSigned(x: nat, n: nat): (r: int)
    requires 0 < n && x < Pow256(n)
    ensures -(Pow256(n) / 2 as int) <= r < Pow256(n) / 2
  {
    HalfPow256(n);
    if x < Pow256(n) / 2 then x else x - Pow256(n)
  }

  /** The unsigned n-byte representation of a two's-complement value v. */
  function ToUnsigned(v: int, n: nat): (r: nat)
    requires 0 < n && -(Pow256(n) / 2 as int) <= v < Pow256(n) / 2
    ensures r < Pow256(n)
  {
    if v >= 0 then v else v + Pow256(n)
  }

  lemma SignedRoundTrip(x: nat, n: nat)
    requires 0 < n && x < Pow256(n)
    ensures ToUnsigned(ToSigned(x, n), n) == x
  {
  }
}
