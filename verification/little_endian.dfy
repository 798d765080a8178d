/** The little-endian encoding of integers and words in the archive stream.
    txdedit reads and writes raw memory after toLittleEndian/fromLittleEndian
    conversions; StoredWordIsLittleEndian shows the bytes on the wire are
    least significant first on any host, which is what this module encodes. */
module LittleEndian {
  import opened TxdTypes

  function Pow256(k: nat): (r: nat)
    ensures r >= 1
  {
    if k == 0 then 1 else 256 * Pow256(k - 1)
  }

  /** The byte holding n, assembled from its two hexadecimal digits. */
  function ToByte(n: int): (b: Byte)
    requires 0 <= n < 256
    ensures b as int == n
  {
    (Nibble(n / 16) << 4) | Nibble(n % 16)
  }

  function Nibble(n: int): (b: Byte)
    requires 0 <= n < 16
    ensures b as int == n && b < 16
  {
    if n < 8 then
      if n < 4 then (if n < 2 then (if n == 0 then 0 else 1) else (if n == 2 then 2 else 3))
      else (if n < 6 then (if n == 4 then 4 else 5) else (if n == 6 then 6 else 7))
    else
      if n < 12 then (if n < 10 then (if n == 8 then 8 else 9) else (if n == 10 then 10 else 11))
      else (if n < 14 then (if n == 12 then 12 else 13) else (if n == 14 then 14 else 15))
  }

  /** The k least significant bytes of n, least significant first: what
      storing n into a k-byte unsigned field and writing it out produces. */
  function LeBytes(n: nat, k: nat): (s: Bytes)
    ensures |s| == k
  {
    if k == 0 then [] else [ToByte(n % 256)] + LeBytes(n / 256, k - 1)
  }

  /** The unsigned value of bytes read least significant first. */
  function LeValue(s: Bytes): (n: nat)
    ensures n < Pow256(|s|)
  {
    if |s| == 0 then 0 else s[0] as int + 256 * LeValue(s[1..])
  }

  /** Decoding undoes encoding for every value that fits the field. */
  lemma {:induction false} LeValueOfBytes(n: nat, k: nat)
    requires n < Pow256(k)
    ensures LeValue(LeBytes(n, k)) == n
  {
    if k > 0 {
      LeValueOfBytes(n / 256, k - 1);
      assert LeBytes(n, k)[1..] == LeBytes(n / 256, k - 1);
    }
  }

  /** Encoding undoes decoding for every byte string. */
  lemma {:induction false} LeBytesOfValue(s: Bytes)
    ensures LeBytes(LeValue(s), |s|) == s
  {
    if |s| > 0 {
      LeBytesOfValue(s[1..]);
      ByteAndRest(s[0] as int, LeValue(s[1..]));
      ByteInjective(ToByte(s[0] as int), s[0]);
      assert s == [s[0]] + s[1..];
    }
  }

  /** A byte is determined by its value. */
  lemma ByteInjective(a: Byte, b: Byte)
    requires a as int == b as int
    ensures a == b
  {
  }

  lemma ByteAndRest(b: nat, rest: nat)
    requires b < 256
    ensures (b + 256 * rest) % 256 == b && (b + 256 * rest) / 256 == rest
  {
  }

  /** A 32-bit unsigned field holding n: the value is truncated as by
      static_cast<uint32_t>. */
  function U32Bytes(n: nat): (s: Bytes)
    ensures |s| == 4
    ensures LeValue(s) == n % 0x1_0000_0000
  {
    assert Pow256(4) == 0x1_0000_0000;
    LeValueOfBytes(n % 0x1_0000_0000, 4);
    LeBytes(n % 0x1_0000_0000, 4)
  }

  function U16Bytes(n: u16): (s: Bytes)
    ensures |s| == 2 && LeValue(s) == n
  {
    assert Pow256(2) == 0x1_0000;
    LeValueOfBytes(n, 2);
    LeBytes(n, 2)
  }

  function U16At(s: Bytes, i: nat): u16
    requires i + 2 <= |s|
  {
    assert Pow256(2) == 0x1_0000;
    LeValue(s[i..i + 2])
  }

  function U32At(s: Bytes, i: nat): u32
    requires i + 4 <= |s|
  {
    assert Pow256(4) == 0x1_0000_0000;
    LeValue(s[i..i + 4])
  }

  /** A 32-bit field read as a signed (two's complement) integer. */
  function I32At(s: Bytes, i: nat): (v: int)
    requires i + 4 <= |s|
    ensures -0x8000_0000 <= v < 0x8000_0000
    ensures v >= 0 <==> U32At(s, i) < 0x8000_0000
    ensures v >= 0 ==> v == U32At(s, i)
  {
    var u := U32At(s, i);
    if u < 0x8000_0000 then u else u - 0x1_0000_0000
  }

  /** An 8-bit field read as a signed integer (int8_t). */
  function AsSigned8(b: Byte): (v: int)
    ensures -128 <= v < 128
    ensures v >= 0 <==> b < 0x80
    ensures v >= 0 ==> v == b as int
  {
    if b < 0x80 then b as int else b as int - 256
  }

  /** The four bytes of a bit-pattern word, least significant first. */
  function WordBytes(w: bv32): (s: Bytes)
    ensures |s| == 4
  {
    [ByteOf32(w, 0), ByteOf32(w, 1), ByteOf32(w, 2), ByteOf32(w, 3)]
  }

  function WordAt(s: Bytes, i: nat): bv32
    requires i + 4 <= |s|
  {
    (s[i] as bv32) | ((s[i + 1] as bv32) << 8) | ((s[i + 2] as bv32) << 16) | ((s[i + 3] as bv32) << 24)
  }

  lemma WordRoundTrip(w: bv32, s: Bytes, i: nat)
    requires i + 4 <= |s|
    ensures WordAt(WordBytes(w), 0) == w
    ensures WordBytes(WordAt(s, i)) == s[i..i + 4]
  {
  }
}
