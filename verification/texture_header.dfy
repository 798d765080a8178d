/** The texture descriptor: format word, compression, dimensions, mipmap
    count, flags and names, with the size arithmetic and the invariant-checked
    mutators of core/TXDTextureHeader.h and core/TXDTextureHeader.cpp. */
module TextureHeader {
  import opened Wrappers
  import opened TxdTypes

  const MaxNameLength: nat := 31

  datatype Header = Header(
    diffuseName: Bytes,
    alphaName: Bytes,
    rasterFormat: bv32,
    compression: Compression,
    width: u16,
    height: u16,
    mipmapCount: u8,
    alphaUsed: bool,
    uWrap: Byte,
    vWrap: Byte,
    filterFlags: u16)

  /** The exceptions the descriptor's constructor and setters throw. */
  datatype HeaderError =
    | DefaultFormatUncompressed
    | InvalidDimensions
    | DiffuseNameTooLong
    | AlphaNameTooLong

  /** The state of a descriptor after a setter that may throw, and the error
      it threw, if any. A setter that throws after assigning leaves its
      assignments in place, so the state is reported in both cases. */
  datatype HeaderStep = HeaderStep(header: Header, error: Option<HeaderError>)

  // ---------------------------------------------------------------- format word

  /** The base layout: the bits of the word inside RasterFormatMask. */
  function RasterFormat(h: Header): (r: bv32)
    ensures r & !RasterFormatMask == 0
    ensures (r ^ h.rasterFormat) & RasterFormatMask == 0
  {
    h.rasterFormat & RasterFormatMask
  }

  /** The extension flags: the bits of the word inside RasterFormatEXTMask. */
  function RasterFormatExtension(h: Header): (r: bv32)
    ensures r & !RasterFormatEXTMask == 0
    ensures (r ^ h.rasterFormat) & RasterFormatEXTMask == 0
  {
    h.rasterFormat & RasterFormatEXTMask
  }

  function FullRasterFormat(h: Header): bv32 {
    h.rasterFormat
  }

  /** Base layout and extension are disjoint and together make up bits 8..15
      of the stored word, which the full getter returns unchanged. */
  lemma RasterFormatSplit(h: Header)
    ensures RasterFormat(h) & RasterFormatExtension(h) == 0
    ensures RasterFormat(h) | RasterFormatExtension(h) == FullRasterFormat(h) & 0xFF00
  {
  }

  predicate HasPal4(f: bv32) {
    f & RasterFormatEXTPAL4 != 0
  }

  predicate HasPal8(f: bv32) {
    f & RasterFormatEXTPAL8 != 0
  }

  predicate IsPalette(h: Header) {
    HasPal4(h.rasterFormat) || HasPal8(h.rasterFormat)
  }

  /** Palette bytes in front of the mipmap data as the archive reader, the
      writer and the pixel decoder compute them: the 4-bit flag is tested
      first, so a word carrying both flags counts 16 entries only. */
  function PaletteBytes(f: bv32): (n: nat)
    ensures n == 0 <==> !HasPal4(f) && !HasPal8(f)
    ensures n <= 1024
  {
    if HasPal4(f) then 16 * 4 else if HasPal8(f) then 256 * 4 else 0
  }

  /** Entries of the palette table the decoder assumes: 16 for PAL4, else 256. */
  function PaletteEntries(f: bv32): (n: nat)
    ensures HasPal4(f) || HasPal8(f) ==> PaletteBytes(f) == 4 * n
  {
    if HasPal4(f) then 16 else 256
  }

  function BytesPerPixel(h: Header): (r: u8)
    ensures r == 0 || r == 1 || r == 2 || r == 4
    ensures IsPalette(h) ==> r == 1
    ensures !IsPalette(h) ==>
              (r == 4 <==> RasterFormat(h) in {RasterFormatB8G8R8A8, RasterFormatR8G8B8A8, RasterFormatB8G8R8})
    ensures !IsPalette(h) ==>
              (r == 2 <==> RasterFormat(h) in {RasterFormatA1R5G5B5, RasterFormatR4G4B4A4, RasterFormatR5G5B5, RasterFormatR5G6B5})
    ensures !IsPalette(h) ==> (r == 1 <==> RasterFormat(h) == RasterFormatLUM8)
  {
    if IsPalette(h) then 1
    else
      var f := RasterFormat(h);
      if f == RasterFormatB8G8R8A8 || f == RasterFormatR8G8B8A8 || f == RasterFormatB8G8R8 then 4
      else if f == RasterFormatA1R5G5B5 || f == RasterFormatR4G4B4A4 || f == RasterFormatR5G5B5 || f == RasterFormatR5G6B5 then 2
      else if f == RasterFormatLUM8 then 1
      else 0
  }

  // ---------------------------------------------------------------- sizes

  function Pow2(k: nat): (r: nat)
    ensures r >= 1
  {
    if k == 0 then 1 else 2 * Pow2(k - 1)
  }

  /** A side of mipmap level `level` before any clamping: the side halved
      `level` times, rounding down each time, which is txdedit's division
      by 2^level with truncation (LevelDimensionIsQuotient). */
  function LevelDimension(d: nat, level: nat): (r: nat)
    ensures r <= d
  {
    if level == 0 then d else LevelDimension(d, level - 1) / 2
  }

  /** The smallest side a level may have: a 4x4 block for the block formats. */
  function MinBlockDimension(c: Compression): (m: nat)
    ensures m == 1 || m == 4
  {
    if IsBlockCompressed(c) then 4 else 1
  }

  /** A side of mipmap level `level` as computeMipmapDataSize uses it: block
      formats clamp it up to 4, other formats do not clamp at all. */
  function MipmapDimension(h: Header, d: nat, level: nat): (r: nat)
    ensures IsBlockCompressed(h.compression) ==> r >= 4
    ensures r >= LevelDimension(d, level)
    ensures LevelDimension(d, level) >= MinBlockDimension(h.compression) ==> r == LevelDimension(d, level)
  {
    var m := LevelDimension(d, level);
    if IsBlockCompressed(h.compression) && m < 4 then 4 else m
  }

  /** Bytes of one mipmap level: w*h*bpp uncompressed, w*h/2 for DXT1 (4 bits
      per pixel), w*h for DXT3 (8 bits per pixel), 0 for other codes. */
  function MipmapDataSize(h: Header, level: nat): (n: nat)
  {
    var w := MipmapDimension(h, h.width, level);
    var ht := MipmapDimension(h, h.height, level);
    NaturalProduct(w, ht);
    var pixels := w * ht;
    match h.compression
    case NoCompression => NaturalProduct(pixels, BytesPerPixel(h)); pixels * BytesPerPixel(h)
    case Dxt1 => pixels / 2
    case Dxt3 => pixels
    case OtherCompression(_) => 0
  }

  /** The level size by compression, with the block sides clamped and the
      uncompressed sides not. */
  lemma MipmapDataSizeByCompression(h: Header, level: nat)
    ensures h.compression == Dxt1 ==> MipmapDataSize(h, level) >= 8
    ensures h.compression == Dxt3 ==> MipmapDataSize(h, level) >= 16
    ensures h.compression == NoCompression ==>
              MipmapDataSize(h, level) == LevelDimension(h.width, level) * LevelDimension(h.height, level) * BytesPerPixel(h)
    ensures h.compression.OtherCompression? ==> MipmapDataSize(h, level) == 0
  {
    var w := MipmapDimension(h, h.width, level);
    var ht := MipmapDimension(h, h.height, level);
    if IsBlockCompressed(h.compression) {
      ProductAtLeast16(w, ht);
    }
  }

  lemma NaturalProduct(a: nat, b: nat)
    ensures a * b >= 0
  {
  }

  lemma ProductAtLeast16(a: nat, b: nat)
    requires a >= 4 && b >= 4
    ensures a * b >= 16
  {
  }

  /** Bytes of the first n mipmap levels. */
  function MipmapsSize(h: Header, n: nat): nat {
    if n == 0 then 0 else MipmapsSize(h, n - 1) + MipmapDataSize(h, n - 1)
  }

  /** computeDataSize: all mipmap levels, plus 64 bytes when the PAL4 flag is
      set and 1024 when the PAL8 flag is set (both when both are set). */
  function DataSize(h: Header): (n: nat)
    ensures n >= MipmapsSize(h, h.mipmapCount)
    ensures n == MipmapsSize(h, h.mipmapCount) + (if HasPal4(h.rasterFormat) then 64 else 0)
                 + (if HasPal8(h.rasterFormat) then 1024 else 0)
  {
    var size := MipmapsSize(h, h.mipmapCount);
    var size4 := if HasPal4(h.rasterFormat) then size + 16 * 4 else size;
    if HasPal8(h.rasterFormat) then size4 + 256 * 4 else size4
  }

  // ---------------------------------------------------------------- mipmap levels

  /** The truncated binary logarithm, characterised by the power of two it selects. */
  function FloorLog2(n: nat): (k: nat)
    requires n >= 1
    ensures Pow2(k) <= n < Pow2(k + 1)
  {
    if n == 1 then 0 else 1 + FloorLog2(n / 2)
  }

  /** log2(d / m) truncated toward zero, as txdedit obtains it from a float
      quotient of logarithms cast to int8_t. A zero side makes the quotient
      minus infinity; its cast is undefined in C++ and is taken here as -128. */
  function TruncatedLog2Ratio(d: nat, m: nat): (r: int)
    requires m >= 1
  {
    if d == 0 then -128
    else if d >= m then FloorLog2(d / m)
    else -(FloorLog2(m / d) as int)
  }

  /** The truncated logarithm is non-negative exactly when the side is more
      than half the minimum. */
  lemma TruncatedLog2RatioSign(d: nat, m: nat)
    requires m >= 1
    ensures TruncatedLog2Ratio(d, m) >= 0 <==> 2 * d > m
  {
    if 1 <= d < m {
      FloorLog2ZeroBelowTwo(m / d);
      QuotientBelowTwo(m, d);
    }
  }

  lemma FloorLog2ZeroBelowTwo(n: nat)
    requires n >= 1
    ensures FloorLog2(n) == 0 <==> n < 2
  {
    if FloorLog2(n) != 0 {
      Pow2Monotone(1, FloorLog2(n));
    }
  }

  lemma QuotientBelowTwo(m: nat, d: nat)
    requires 1 <= d <= m
    ensures m / d >= 1
    ensures m / d < 2 <==> m < 2 * d
  {
    var q, r := m / d, m % d;
    assert m == q * d + r;
    if q >= 2 {
      assert q * d >= 2 * d;
    } else {
      assert q * d <= d;
    }
  }

  lemma {:induction false} Pow2Monotone(i: nat, j: nat)
    requires i <= j
    ensures Pow2(i) <= Pow2(j)
  {
    if i < j {
      Pow2Monotone(i, j - 1);
    }
  }

  /** calculateMaximumMipmapLevel: the smaller of the two sides' truncated
      log2(side / minimum side). */
  function MaxMipmapLevel(h: Header): (r: int)
    ensures r >= 0 <==> 2 * h.width > MinBlockDimension(h.compression) && 2 * h.height > MinBlockDimension(h.compression)
  {
    var m := MinBlockDimension(h.compression);
    TruncatedLog2RatioSign(h.width, m);
    TruncatedLog2RatioSign(h.height, m);
    var lw := TruncatedLog2Ratio(h.width, m);
    var lh := TruncatedLog2Ratio(h.height, m);
    if lw <= lh then lw else lh
  }

  /** fixMipmapCount: min(count, maxLevel + 1), where maxLevel + 1 is narrowed
      to uint8_t first (so a maximum level below -1 wraps and leaves the count). */
  function FixMipmapCount(h: Header): (r: Header)
    ensures r.mipmapCount <= h.mipmapCount
    ensures r == h.(mipmapCount := r.mipmapCount)
    ensures 0 <= MaxMipmapLevel(h) + 1 < 256 ==> r.mipmapCount == Min(h.mipmapCount, MaxMipmapLevel(h) + 1)
  {
    var bound := (MaxMipmapLevel(h) + 1) % 256;
    h.(mipmapCount := if bound < h.mipmapCount then bound else h.mipmapCount)
  }

  function Min(a: int, b: int): int {
    if a <= b then a else b
  }

  // ---------------------------------------------------------------- checked mutators

  /** A default format word resolves to R5G6B5 under DXT1 and to R4G4B4A4
      under DXT3; any other word, and any compression but those two, keeps it. */
  function ResolveRasterFormat(f: bv32, c: Compression): (r: bv32)
    ensures f != RasterFormatDefault ==> r == f
    ensures f == RasterFormatDefault && c == Dxt1 ==> r == RasterFormatR5G6B5
    ensures f == RasterFormatDefault && c == Dxt3 ==> r == RasterFormatR4G4B4A4
    ensures f == RasterFormatDefault && !IsBlockCompressed(c) ==> r == RasterFormatDefault
  {
    if f == RasterFormatDefault then
      match c
      case Dxt1 => RasterFormatR5G6B5
      case Dxt3 => RasterFormatR4G4B4A4
      case _ => f
    else f
  }

  /** setRasterFormat(f, c) (c defaults to NONE). A default word
      without compression throws before anything is assigned; otherwise the
      resolved word and the compression are assigned and then the dimensions
      are checked, so that error leaves the new format in place. */
  function SetRasterFormat(h: Header, f: bv32, c: Compression): (r: HeaderStep)
    ensures r.error == Some(DefaultFormatUncompressed) <==> f == RasterFormatDefault && c == NoCompression
    ensures r.error == Some(DefaultFormatUncompressed) ==> r.header == h
    ensures r.error != Some(DefaultFormatUncompressed) ==>
              r.header == h.(rasterFormat := ResolveRasterFormat(f, c), compression := c)
    ensures r.error == Some(InvalidDimensions) <==>
              r.error != Some(DefaultFormatUncompressed)
              && !(2 * h.width > MinBlockDimension(c) && 2 * h.height > MinBlockDimension(c))
    ensures r.error == None ==> MaxMipmapLevel(r.header) >= 0
    ensures r.error.Some? ==> r.error.value == DefaultFormatUncompressed || r.error.value == InvalidDimensions
  {
    if f == RasterFormatDefault && c == NoCompression then
      HeaderStep(h, Some(DefaultFormatUncompressed))
    else
      var h' := h.(rasterFormat := ResolveRasterFormat(f, c), compression := c);
      if MaxMipmapLevel(h') < 0 then HeaderStep(h', Some(InvalidDimensions))
      else HeaderStep(h', None)
  }

  /** setDiffuseName: names longer than 31 bytes are rejected, leaving the
      descriptor as it was. */
  function SetDiffuseName(h: Header, name: Bytes): (r: HeaderStep)
    ensures r.error.Some? <==> |name| > MaxNameLength
    ensures r.error.Some? ==> r.error == Some(DiffuseNameTooLong) && r.header == h
    ensures r.error.None? ==> r.header.diffuseName == name && r.header.(diffuseName := h.diffuseName) == h
  {
    if |name| > MaxNameLength then HeaderStep(h, Some(DiffuseNameTooLong))
    else HeaderStep(h.(diffuseName := name), None)
  }

  /** setAlphaName: the same 31-byte limit for the alpha-mask name. */
  function SetAlphaName(h: Header, name: Bytes): (r: HeaderStep)
    ensures r.error.Some? <==> |name| > MaxNameLength
    ensures r.error.Some? ==> r.error == Some(AlphaNameTooLong) && r.header == h
    ensures r.error.None? ==> r.header.alphaName == name && r.header.(alphaName := h.alphaName) == h
  {
    if |name| > MaxNameLength then HeaderStep(h, Some(AlphaNameTooLong))
    else HeaderStep(h.(alphaName := name), None)
  }

  /** The invariant a constructed descriptor satisfies: a resolved format word
      (unless the compression code is one txdedit does not name), a
      non-negative maximum mipmap level and names within the limit. */
  predicate Valid(h: Header) {
    && (h.compression.OtherCompression? || h.rasterFormat != RasterFormatDefault)
    && MaxMipmapLevel(h) >= 0
    && |h.diffuseName| <= MaxNameLength
    && |h.alphaName| <= MaxNameLength
  }

  /** The constructor: one mipmap, no alpha, no wrapping, no filtering and an
      empty alpha name; then setRasterFormat and setDiffuseName, whose errors
      make the construction fail. */
  function NewHeader(name: Bytes, f: bv32, c: Compression, w: u16, ht: u16): (r: Result<Header, HeaderError>)
    ensures r.Failure? <==>
              (f == RasterFormatDefault && c == NoCompression)
              || !(2 * w > MinBlockDimension(c) && 2 * ht > MinBlockDimension(c))
              || |name| > MaxNameLength
    ensures r.Failure? && f == RasterFormatDefault && c == NoCompression ==> r.error == DefaultFormatUncompressed
    ensures r.Success? ==> Valid(r.value)
    ensures r.Success? ==>
              r.value == Header(name, [], ResolveRasterFormat(f, c), c, w, ht, 1, false, WrapNone, WrapNone, FilterNone)
  {
    var initial := Header(name, [], f, c, w, ht, 1, false, WrapNone, WrapNone, FilterNone);
    var formatted := SetRasterFormat(initial, f, c);
    if formatted.error.Some? then Failure(formatted.error.value)
    else
      var named := SetDiffuseName(formatted.header, name);
      if named.error.Some? then Failure(named.error.value)
      else Success(named.header)
  }

  // ---------------------------------------------------------------- unchecked setters

  function SetRasterSize(h: Header, w: u16, ht: u16): (r: Header)
    ensures r.width == w && r.height == ht
    ensures r.(width := h.width, height := h.height) == h
  {
    h.(width := w, height := ht)
  }

  function SetMipmapCount(h: Header, n: u8): (r: Header)
    ensures r.mipmapCount == n && r.(mipmapCount := h.mipmapCount) == h
  {
    h.(mipmapCount := n)
  }

  function SetAlphaChannelUsed(h: Header, alpha: bool): (r: Header)
    ensures r.alphaUsed == alpha && r.(alphaUsed := h.alphaUsed) == h
  {
    h.(alphaUsed := alpha)
  }

  function SetWrappingFlags(h: Header, u: Byte, v: Byte): (r: Header)
    ensures r.uWrap == u && r.vWrap == v && r.(uWrap := h.uWrap, vWrap := h.vWrap) == h
  {
    h.(uWrap := u, vWrap := v)
  }

  function SetFilterFlags(h: Header, flags: u16): (r: Header)
    ensures r.filterFlags == flags && r.(filterFlags := h.filterFlags) == h
  {
    h.(filterFlags := flags)
  }
}
