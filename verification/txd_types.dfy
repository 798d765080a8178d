/** Enumerations, format masks and endianness helpers shared by every part of
    the texture-archive core (core/TXDTypes.h). */
module TxdTypes {

  type Byte = bv8
  type Bytes = seq<bv8>

  /** A zero-filled buffer, as std::vector<uint8_t>(n) holds. */
  function Zeros(n: nat): (r: Bytes)
    ensures |r| == n && forall i :: 0 <= i < n ==> r[i] == 0
  {
    seq(n, _ => 0)
  }

  type u8 = x: int | 0 <= x < 0x100
  type u16 = x: int | 0 <= x < 0x1_0000
  type u32 = x: int | 0 <= x < 0x1_0000_0000

  /** The compression of a texture. txdedit's enum is backed by an 8-bit
      integer and names three codes; every other code it can hold takes the
      `default:` branches of the switches, so it is kept as OtherCompression. */
  datatype Compression = NoCompression | Dxt1 | Dxt3 | OtherCompression(code: u8)

  /** An OtherCompression never carries one of the three named codes. */
  predicate WellFormedCompression(c: Compression) {
    c.OtherCompression? ==> c.code != 0 && c.code != 1 && c.code != 3
  }

  predicate IsBlockCompressed(c: Compression) {
    c == Dxt1 || c == Dxt3
  }

  /** The numeric value of the enumerator. */
  function CompressionCode(c: Compression): u8 {
    match c
    case NoCompression => 0
    case Dxt1 => 1
    case Dxt3 => 3
    case OtherCompression(k) => k
  }

  /** The enumerator an 8-bit code denotes; inverse of CompressionCode. */
  function CompressionFromCode(k: u8): (c: Compression)
    ensures WellFormedCompression(c)
    ensures CompressionCode(c) == k
    ensures k == 0 <==> c == NoCompression
    ensures k == 1 <==> c == Dxt1
    ensures k == 3 <==> c == Dxt3
  {
    if k == 0 then NoCompression
    else if k == 1 then Dxt1
    else if k == 3 then Dxt3
    else OtherCompression(k)
  }

  lemma CompressionCodeRoundTrip(c: Compression)
    requires WellFormedCompression(c)
    ensures CompressionFromCode(CompressionCode(c)) == c
  {
  }

  // Raster formats: a base layout in bits 8..11 and extension flags in bits 12..15.
  const RasterFormatDefault: bv32 := 0x000
  const RasterFormatA1R5G5B5: bv32 := 0x100
  const RasterFormatR5G6B5: bv32 := 0x200
  const RasterFormatR4G4B4A4: bv32 := 0x300
  const RasterFormatLUM8: bv32 := 0x400
  const RasterFormatB8G8R8A8: bv32 := 0x500
  const RasterFormatB8G8R8: bv32 := 0x600
  const RasterFormatR5G5B5: bv32 := 0xA00
  const RasterFormatR8G8B8A8: bv32 := 0xF00

  const RasterFormatEXTAutoMipmap: bv32 := 0x1000
  const RasterFormatEXTPAL8: bv32 := 0x2000
  const RasterFormatEXTPAL4: bv32 := 0x4000
  const RasterFormatEXTMipmap: bv32 := 0x8000

  const RasterFormatMask: bv32 := 0xF00
  const RasterFormatEXTMask: bv32 := 0xF000

  /** The base layouts txdedit names. */
  predicate IsBaseFormat(f: bv32) {
    f == RasterFormatDefault || f == RasterFormatA1R5G5B5 || f == RasterFormatR5G6B5
    || f == RasterFormatR4G4B4A4 || f == RasterFormatLUM8 || f == RasterFormatB8G8R8A8
    || f == RasterFormatB8G8R8 || f == RasterFormatR5G5B5 || f == RasterFormatR8G8B8A8
  }

  /** The extension flags txdedit names. */
  predicate IsExtensionFlag(f: bv32) {
    f == RasterFormatEXTAutoMipmap || f == RasterFormatEXTPAL8
    || f == RasterFormatEXTPAL4 || f == RasterFormatEXTMipmap
  }

  /** The two masks are disjoint, every base layout lies inside the base mask
      and every extension flag inside the extension mask. */
  lemma FormatMasksPartition(f: bv32)
    ensures RasterFormatMask & RasterFormatEXTMask == 0
    ensures IsBaseFormat(f) ==> f & RasterFormatMask == f && f & RasterFormatEXTMask == 0
    ensures IsExtensionFlag(f) ==> f & RasterFormatEXTMask == f && f & RasterFormatMask == 0
  {
  }

  // Filter flags (stored as a 16-bit value).
  const FilterNone: u16 := 0
  const FilterNearest: u16 := 1
  const FilterLinear: u16 := 2
  const FilterMipNearest: u16 := 3
  const FilterMipLinear: u16 := 4
  const FilterLinearMipNearest: u16 := 5
  const FilterLinearMipLinear: u16 := 6

  // Wrapping modes (stored as an 8-bit value).
  const WrapNone: Byte := 0
  const WrapWrap: Byte := 1
  const WrapMirror: Byte := 2
  const WrapClamp: Byte := 3

  datatype GameVersion = Unknown | Gta3 | GtaVC | GtaSA

  /** Byte k (k = 0 is the least significant) of a 32-bit word. */
  function ByteOf32(v: bv32, k: nat): Byte
    requires k < 4
  {
    if k == 0 then (v & 0xFF) as Byte
    else if k == 1 then ((v >> 8) & 0xFF) as Byte
    else if k == 2 then ((v >> 16) & 0xFF) as Byte
    else ((v >> 24) & 0xFF) as Byte
  }

  function ByteOf16(v: bv16, k: nat): Byte
    requires k < 2
  {
    if k == 0 then (v & 0xFF) as Byte else ((v >> 8) & 0xFF) as Byte
  }

  /** Reverses the four bytes of a word. */
  function SwapEndian32(v: bv32): (r: bv32)
    ensures ByteOf32(r, 0) == ByteOf32(v, 3) && ByteOf32(r, 1) == ByteOf32(v, 2)
    ensures ByteOf32(r, 2) == ByteOf32(v, 1) && ByteOf32(r, 3) == ByteOf32(v, 0)
  {
    ((v & 0xFF00_0000) >> 24) | ((v & 0x00FF_0000) >> 8)
    | ((v & 0x0000_FF00) << 8) | ((v & 0x0000_00FF) << 24)
  }

  /** Exchanges the two bytes of a half-word. */
  function SwapEndian16(v: bv16): (r: bv16)
    ensures ByteOf16(r, 0) == ByteOf16(v, 1) && ByteOf16(r, 1) == ByteOf16(v, 0)
  {
    ((v & 0xFF00) >> 8) | ((v & 0x00FF) << 8)
  }

  lemma SwapEndian32Involution(v: bv32)
    ensures SwapEndian32(SwapEndian32(v)) == v
  {
  }

  lemma SwapEndian16Involution(v: bv16)
    ensures SwapEndian16(SwapEndian16(v)) == v
  {
  }

  /** The byte order of the machine the code is compiled for; txdedit
      chooses between the two at compile time. */
  datatype HostOrder = LittleEndianHost | BigEndianHost

  function ToLittleEndian32(v: bv32, host: HostOrder): bv32 {
    if host == BigEndianHost then SwapEndian32(v) else v
  }

  function ToLittleEndian16(v: bv16, host: HostOrder): bv16 {
    if host == BigEndianHost then SwapEndian16(v) else v
  }

  /** Converting back from little-endian undoes the conversion to it, on
      either kind of host. */
  function FromLittleEndian32(v: bv32, host: HostOrder): (r: bv32)
    ensures ToLittleEndian32(r, host) == v
  {
    SwapEndian32Involution(v);
    if host == BigEndianHost then SwapEndian32(v) else v
  }

  function FromLittleEndian16(v: bv16, host: HostOrder): (r: bv16)
    ensures ToLittleEndian16(r, host) == v
  {
    SwapEndian16Involution(v);
    if host == BigEndianHost then SwapEndian16(v) else v
  }

  lemma LittleEndianRoundTrip(v: bv32, w: bv16, host: HostOrder)
    ensures FromLittleEndian32(ToLittleEndian32(v, host), host) == v
    ensures FromLittleEndian16(ToLittleEndian16(w, host), host) == w
  {
  }

  /** The four bytes a word occupies in the memory of a host, lowest address first. */
  function HostMemory32(v: bv32, host: HostOrder): Bytes {
    if host == LittleEndianHost then [ByteOf32(v, 0), ByteOf32(v, 1), ByteOf32(v, 2), ByteOf32(v, 3)]
    else [ByteOf32(v, 3), ByteOf32(v, 2), ByteOf32(v, 1), ByteOf32(v, 0)]
  }

  /** Whatever the host, a word stored after toLittleEndian32 lies in memory
      least significant byte first: the file format is little-endian. */
  lemma StoredWordIsLittleEndian(v: bv32, host: HostOrder)
    ensures HostMemory32(ToLittleEndian32(v, host), host)
            == [ByteOf32(v, 0), ByteOf32(v, 1), ByteOf32(v, 2), ByteOf32(v, 3)]
  {
  }
}
