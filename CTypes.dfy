/**
 * Fixed-width C integer types of the firmware and the two conversions between
 * int16_t and uint16_t that the dial relies on. Values are mathematical
 * integers restricted to the range of the C type; every wrap-around is
 * written out where the C code would perform it.
 */
module CTypes {

  type uint8 = x: int | 0 <= x < 0x100
  type uint16 = x: int | 0 <= x < 0x1_0000
  type uint32 = x: int | 0 <= x < 0x1_0000_0000
  type uint64 = x: int | 0 <= x < 0x1_0000_0000_0000_0000
  type int16 = x: int | -0x8000 <= x < 0x8000

  datatype Option<T> = None | Some(value: T)

  /** Conversion of an int16_t to uint16_t: the unique uint16_t congruent to it modulo 2^16. */
  function Int16ToUint16(v: int16): (u: uint16)
    ensures (u - v) % 0x1_0000 == 0
    ensures v >= 0 <==> u < 0x8000
  {
    if v < 0 then v + 0x1_0000 else v
  }

  /**
   * Conversion of a uint16_t to int16_t (the two's-complement reading every
   * target of the firmware's compiler uses): the unique int16_t congruent to it
   * modulo 2^16. The bit pattern is unchanged: converting back gives `u`.
   */
  function Uint16ToInt16(u: uint16): (v: int16)
    ensures (u - v) % 0x1_0000 == 0
    ensures Int16ToUint16(v) == u
  {
    if u < 0x8000 then u else u - 0x1_0000
  }

  /** Reading a uint16_t as int16_t and back loses nothing, in both directions. */
  lemma Int16RoundTrip(v: int16)
    ensures Uint16ToInt16(Int16ToUint16(v)) == v
  {
  }

  /** 256^n, the number of values an n-byte field can hold. */
  function Pow256(n: nat): (p: nat)
    ensures p >= 1
  {
    if n == 0 then 1 else 0x100 * Pow256(n - 1)
  }

  /** The unsigned value of bytes stored least significant first. */
  function UnsignedLE(bytes: seq<uint8>): (x: nat)
    ensures x < Pow256(|bytes|)
  {
    if |bytes| == 0 then 0 else bytes[0] + 0x100 * UnsignedLE(bytes[1..])
  }

  /** The two's-complement signed value of bytes stored least significant first. */
  function SignedLE(bytes: seq<uint8>): (x: int)
    ensures |bytes| > 0 ==> -(Pow256(|bytes|) / 2) <= x < Pow256(|bytes|) / 2
    ensures x >= 0 ==> x == UnsignedLE(bytes)
    ensures x < 0 ==> x + Pow256(|bytes|) == UnsignedLE(bytes)
  {
    var u := UnsignedLE(bytes);
    if |bytes| > 0 && u >= Pow256(|bytes|) / 2 then u - Pow256(|bytes|) else u
  }

  /** The n bytes, least significant first, that store `x`. */
  function BytesLE(x: nat, n: nat): (bytes: seq<uint8>)
    requires x < Pow256(n)
    ensures |bytes| == n
  {
    if n == 0 then [] else [x % 0x100] + BytesLE(x / 0x100, n - 1)
  }

  /** Storing a value in n little-endian bytes and reading it back gives the value. */
  lemma {:induction false} UnsignedLERoundTrip(x: nat, n: nat)
    requires x < Pow256(n)
    ensures UnsignedLE(BytesLE(x, n)) == x
  {
    if n > 0 {
      UnsignedLERoundTrip(x / 0x100, n - 1);
      assert BytesLE(x, n)[1..] == BytesLE(x / 0x100, n - 1);
    }
  }

  /** Reading bytes and storing the value back gives the same bytes. */
  lemma {:induction false} BytesLERoundTrip(bytes: seq<uint8>)
    ensures BytesLE(UnsignedLE(bytes), |bytes|) == bytes
  {
    if |bytes| > 0 {
      BytesLERoundTrip(bytes[1..]);
      var x := UnsignedLE(bytes);
      assert x % 0x100 == bytes[0];
      assert x / 0x100 == UnsignedLE(bytes[1..]);
    }
  }
}
