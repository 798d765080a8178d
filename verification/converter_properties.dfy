/** Properties of the decoder: which pixel each block texel lands on, how far
    each path reads, and the palette layout discrepancy. */
module ConverterProperties {
  import opened Wrappers
  import opened TxdTypes
  import opened LittleEndian
  import opened TextureHeader
  import opened HeaderProperties
  import opened Pixels
  import opened Converter

  // ---------------------------------------------------------------- block loops

  lemma RowMajor(w: nat, px: nat, py: nat)
    requires px < w
    ensures (py * w + px) / w == py && (py * w + px) % w == px
  {
    DivisionUnique(py * w + px, w, py, px);
  }

  lemma RowMajorInRange(w: nat, ht: nat, px: nat, py: nat)
    requires px < w && py < ht
    ensures py * w + px < w * ht
  {
    assert py * w + px < (py + 1) * w;
    ProductMonotone(ht, w, py + 1, w);
  }

  lemma BlockAtPixel(off: nat, w: nat, ht: nat, bytes: nat, px: nat, py: nat)
    requires px < w && py < ht
    ensures PixelNumber(w, px, py) < w * ht
    ensures BlockAt(off, w, ht, bytes, PixelNumber(w, px, py)) == off + ((py / 4) * BlocksAlong(w) + px / 4) * bytes
  {
    RowMajor(w, px, py);
    RowMajorInRange(w, ht, px, py);
  }

  lemma SplitByFour(column: nat, x: nat)
    requires x < 4
    ensures (4 * column + x) / 4 == column && (4 * column + x) % 4 == x
  {
  }

  /** Output pixel (px, py) of a block-compressed level, by the per-pixel
      definition: the texel (px mod 4, py mod 4) of block (px / 4, py / 4). */
  lemma BlockPixelAt(h: Header, data: Bytes, level: nat, px: nat, py: nat)
    requires IsBlockCompressed(h.compression) && BlockExtent(h, level) <= |data|
    requires px < OutputWidth(h, level) && py < OutputHeight(h, level)
    ensures PixelNumber(OutputWidth(h, level), px, py) < |BlockImage(h, data, level)|
    ensures BlockOffset(h, level, px / 4, py / 4) + BlockBytes(h.compression) <= |data|
    ensures BlockImage(h, data, level)[PixelNumber(OutputWidth(h, level), px, py)]
            == BlockTexel(h, data, BlockOffset(h, level, px / 4, py / 4), Coord(px % 4), Coord(py % 4))
  {
    var k := PixelNumber(OutputWidth(h, level), px, py);
    BlockPixelPosition(h, level, px, py);
    assert BlockImage(h, data, level)[k] == BlockPixel(h, data, level, k);
  }

  /** The block offset and texel coordinates BlockPixel derives from the
      row-major pixel number are those of (px, py). */
  lemma BlockPixelPosition(h: Header, level: nat, px: nat, py: nat)
    requires px < OutputWidth(h, level) && py < OutputHeight(h, level)
    ensures var w, ht := OutputWidth(h, level), OutputHeight(h, level);
            var k := PixelNumber(w, px, py);
            && k < w * ht
            && BlockAt(LevelOffset(h, level), w, ht, BlockBytes(h.compression), k) == BlockOffset(h, level, px / 4, py / 4)
            && (k % w) % 4 == px % 4 && (k / w) % 4 == py % 4
  {
    var w, ht := OutputWidth(h, level), OutputHeight(h, level);
    RowMajor(w, px, py);
    BlockAtPixel(LevelOffset(h, level), w, ht, BlockBytes(h.compression), px, py);
  }

  /** In the block loops of convertDXT1 / convertDXT3, texel (x, y) of block
      (column, row) is written to output pixel (4 column + x, 4 row + y) when
      that pixel is inside the image; the per-pixel definition gives that
      pixel exactly this texel of exactly this block. */
  lemma BlockLoopWritesTexel(h: Header, data: Bytes, level: nat, column: nat, row: nat, x: nat, y: nat, px: nat, py: nat)
    requires IsBlockCompressed(h.compression) && BlockExtent(h, level) <= |data| && x < 4 && y < 4
    requires px == 4 * column + x && px < OutputWidth(h, level)
    requires py == 4 * row + y && py < OutputHeight(h, level)
    ensures PixelNumber(OutputWidth(h, level), px, py) < |BlockImage(h, data, level)|
    ensures BlockOffset(h, level, column, row) + BlockBytes(h.compression) <= |data|
    ensures BlockImage(h, data, level)[PixelNumber(OutputWidth(h, level), px, py)]
            == BlockTexel(h, data, BlockOffset(h, level, column, row), Coord(x), Coord(y))
  {
    SplitByFour(column, x);
    SplitByFour(row, y);
    assert px / 4 == column && px % 4 == x && py / 4 == row && py % 4 == y;
    assert Coord(px % 4) == Coord(x) && Coord(py % 4) == Coord(y);
    BlockPixelAt(h, data, level, px, py);
  }

  /** Every output column is reached from exactly one block column and one
      texel column: px = 4 column + x with x < 4 fixes both, and that block
      column is one the loop visits. */
  lemma BlockLoopCoversEachPixelOnce(w: nat, px: nat, column: nat, x: nat)
    requires px < w && x < 4 && 4 * column + x == px
    ensures column == px / 4 && x == px % 4
    ensures column < BlocksAlong(w)
  {
    SplitByFour(column, x);
  }

  // ---------------------------------------------------------------- read extents

  lemma SlotsWithinLevel(n: nat, bpp: nat, len: nat)
    requires n >= 1 && len <= bpp
    ensures (n - 1) * bpp + len <= n * bpp
  {
    assert (n - 1) * bpp + bpp == n * bpp;
  }

  /** The uncompressed decoder reads no further than the level's own bytes
      as computeMipmapDataSize counts them. */
  lemma UncompressedReadWithinLevel(h: Header, level: nat)
    requires !IsPalette(h) && h.compression == NoCompression
    ensures UncompressedExtent(h, level) <= LevelOffset(h, level) + MipmapDataSize(h, level)
  {
    var n := RawPixelCount(h, level);
    if n >= 1 {
      SlotsWithinLevel(n, BytesPerPixel(h), ReadLength(RasterFormat(h)));
    }
  }

  /** So decoding a stored level of an uncompressed texture reads only bytes
      of the buffer computeDataSize sizes. */
  lemma UncompressedReadWithinData(h: Header, level: nat)
    requires !IsPalette(h) && h.compression == NoCompression && level < h.mipmapCount
    ensures ReadExtent(h, level, PaletteLayoutCorrected(h, level)) <= DataSize(h)
  {
    UncompressedReadWithinLevel(h, level);
    LevelRegionWithinData(h, level);
  }

  /** The blocks a side needs cover the side computeMipmapDataSize uses. */
  lemma BlockSideCoversMipmapSide(h: Header, d: nat, level: nat)
    requires IsBlockCompressed(h.compression)
    ensures 4 * BlocksAlong(OutputSide(d, level)) >= MipmapDimension(h, d, level)
    ensures LevelDimension(d, level) < 4 || LevelDimension(d, level) % 4 == 0 ==>
              4 * BlocksAlong(OutputSide(d, level)) == MipmapDimension(h, d, level)
  {
  }

  lemma BlockBytesOfSides(c: Compression, bw: nat, bh: nat, mw: nat, mh: nat)
    requires IsBlockCompressed(c) && 4 * bw >= mw && 4 * bh >= mh
    ensures c == Dxt1 ==> bw * bh * 8 >= mw * mh / 2
    ensures c == Dxt3 ==> bw * bh * 16 >= mw * mh
    ensures 4 * bw == mw && 4 * bh == mh ==>
              (c == Dxt1 ==> bw * bh * 8 == mw * mh / 2) && (c == Dxt3 ==> bw * bh * 16 == mw * mh)
  {
    ProductMonotone(4 * bw, 4 * bh, mw, mh);
    assert (4 * bw) * (4 * bh) == 16 * (bw * bh);
  }

  /** The block decoders read at least the level's bytes, and exactly those
      bytes when each side of the level is below 4 or a multiple of 4; for
      other sides (6, say) they read whole blocks past what
      computeMipmapDataSize counts. */
  lemma BlockReadCoversLevel(h: Header, level: nat)
    requires !IsPalette(h) && IsBlockCompressed(h.compression)
    ensures BlockExtent(h, level) >= LevelOffset(h, level) + MipmapDataSize(h, level)
    ensures (LevelDimension(h.width, level) < 4 || LevelDimension(h.width, level) % 4 == 0)
            && (LevelDimension(h.height, level) < 4 || LevelDimension(h.height, level) % 4 == 0)
            ==> BlockExtent(h, level) == LevelOffset(h, level) + MipmapDataSize(h, level)
  {
    BlockSideCoversMipmapSide(h, h.width, level);
    BlockSideCoversMipmapSide(h, h.height, level);
    BlockBytesOfSides(h.compression, BlocksAlong(OutputWidth(h, level)), BlocksAlong(OutputHeight(h, level)),
                      MipmapDimension(h, h.width, level), MipmapDimension(h, h.height, level));
  }

  /** A 6x6 DXT1 texture: computeMipmapDataSize counts 18 bytes, the decoder
      reads its four blocks, 32 bytes. */
  lemma BlockReadExample(h: Header)
    requires h.compression == Dxt1 && !IsPalette(h) && h.width == 6 && h.height == 6
    ensures MipmapDataSize(h, 0) == 18
    ensures BlockExtent(h, 0) == 32
  {
  }

  // ---------------------------------------------------------------- palette layout

  /** As written, the palette decoder of a single-level uncompressed palette
      texture reads a palette's length past the end of the buffer
      computeDataSize sizes: the table is taken from where the indices are and
      the indices from after them. */
  lemma PaletteAsWrittenReadsPastData(h: Header)
    requires HasPal4(h.rasterFormat) != HasPal8(h.rasterFormat)
    requires h.compression == NoCompression && h.mipmapCount == 1
    requires h.width >= 1 && h.height >= 1
    ensures ReadExtent(h, 0, PaletteLayoutAsWritten(h, 0)) == DataSize(h) + PaletteBytes(h.rasterFormat)
    ensures ReadExtent(h, 0, PaletteLayoutAsWritten(h, 0)) > DataSize(h)
  {
    assert MipmapsSize(h, 1) == MipmapDataSize(h, 0);
  }

  /** The smallest case: a 4x4 PAL8 texture stores 1040 bytes and the
      decoder reads up to byte 2064. */
  lemma PaletteAsWrittenExample(h: Header)
    requires h.rasterFormat == RasterFormatEXTPAL8 | RasterFormatR8G8B8A8
    requires h.compression == NoCompression && h.mipmapCount == 1 && h.width == 4 && h.height == 4
    ensures DataSize(h) == 1040
    ensures ReadExtent(h, 0, PaletteLayoutAsWritten(h, 0)) == 2064
  {
    PaletteAsWrittenReadsPastData(h);
  }

  /** With the table read from the palette region, decoding a stored level
      of an uncompressed palette texture stays inside the buffer, the table
      inside the palette region and the indices inside the level. */
  lemma PaletteCorrectedReadsWithinData(h: Header, level: nat)
    requires IsPalette(h) && h.compression == NoCompression && level < h.mipmapCount
    requires LevelDimension(h.width, level) >= 1 && LevelDimension(h.height, level) >= 1
    ensures 4 * PaletteEntries(h.rasterFormat) == PaletteBytes(h.rasterFormat)
    ensures PaletteLayoutCorrected(h, level).indices >= PaletteBytes(h.rasterFormat)
    ensures ReadExtent(h, level, PaletteLayoutCorrected(h, level)) <= DataSize(h)
  {
    LevelRegionWithinData(h, level);
    MipmapDataSizeByCompression(h, level);
  }

  // ---------------------------------------------------------------- output contents

  /** Each output pixel of a palette texture is the four stored bytes of the
      table entry its index selects, red first; an index past the table
      selects entry 0. */
  lemma PaletteOutputIsTableEntry(h: Header, data: Bytes, level: nat, k: nat)
    requires IsPalette(h)
    requires ReadExtent(h, level, PaletteLayoutCorrected(h, level)) <= |data|
    requires k < OutputWidth(h, level) * OutputHeight(h, level)
    ensures var i := ClampIndex(data[LevelOffset(h, level) + k], PaletteEntries(h.rasterFormat));
            && i < PaletteEntries(h.rasterFormat)
            && (data[LevelOffset(h, level) + k] as nat >= PaletteEntries(h.rasterFormat) ==> i == 0)
            && ConvertToRgba8Corrected(h, data, level).value[4 * k .. 4 * k + 4] == data[4 * i .. 4 * i + 4]
  {
    var i := ClampIndex(data[LevelOffset(h, level) + k], PaletteEntries(h.rasterFormat));
    var img := DecodeLevel(h, data, level, PaletteLayoutCorrected(h, level));
    var c := PaletteEntry(data, 0, i);
    assert img[k] == c;
    assert ConvertToRgba8Corrected(h, data, level).value == Flatten(img);
    FlattenedPixel(img, k, c);
  }

  /** The output bytes of a pixel are its four channels, red first. */
  lemma FlattenedPixel(img: seq<Rgba>, k: nat, c: Rgba)
    requires k < |img| && img[k] == c
    ensures Flatten(img)[4 * k .. 4 * k + 4] == [c.r, c.g, c.b, c.a]
  {
  }

  /** Without a palette the two conversions read the same bytes the same
      way: the palette layout is the only thing they differ in. */
  lemma ConvertersAgreeWithoutPalette(h: Header, data: Bytes, level: nat)
    requires !IsPalette(h)
    requires CanConvert(h) ==> ReadExtent(h, level, PaletteLayoutAsWritten(h, level)) <= |data|
    ensures CanConvert(h) ==> ReadExtent(h, level, PaletteLayoutCorrected(h, level)) <= |data|
    ensures ConvertToRgba8(h, data, level) == ConvertToRgba8Corrected(h, data, level)
  {
  }

  /** An uncompressed level whose stored width or height at that level is 0
      decodes to a blank image: the pixel loops do not run, and the output
      buffer, clamped to at least one pixel, keeps its zeros. */
  lemma EmptyLevelIsBlank(h: Header, data: Bytes, level: nat)
    requires !IsPalette(h) && h.compression == NoCompression
    requires LevelDimension(h.width, level) == 0 || LevelDimension(h.height, level) == 0
    ensures ConvertToRgba8Corrected(h, data, level).Some?
    ensures forall i :: 0 <= i < |ConvertToRgba8Corrected(h, data, level).value| ==> ConvertToRgba8Corrected(h, data, level).value[i] == 0
    ensures ConvertToRgba8(h, data, level) == ConvertToRgba8Corrected(h, data, level)
  {
    assert RawPixelCount(h, level) == 0;
    ConvertersAgreeWithoutPalette(h, data, level);
    var img := DecodeLevel(h, data, level, PaletteLayoutCorrected(h, level));
    FlattenOfBlank(img);
  }

  /** Pixels that are all zero flatten to zero bytes. */
  lemma {:induction false} FlattenOfBlank(img: seq<Rgba>)
    requires forall k :: 0 <= k < |img| ==> img[k] == Rgba(0, 0, 0, 0)
    ensures forall i :: 0 <= i < |Flatten(img)| ==> Flatten(img)[i] == 0
    decreases |img|
  {
    if |img| > 0 {
      var rest := img[1..];
      assert forall k :: 0 <= k < |rest| ==> rest[k] == img[k + 1];
      FlattenOfBlank(rest);
      assert Flatten(img) == [0, 0, 0, 0] + Flatten(rest);
    }
  }

  /** An R8G8B8A8 level whose sides are at least 1 decodes to a copy of its
      stored bytes. */
  lemma Rgba8LevelIsCopied(h: Header, data: Bytes, level: nat)
    requires !IsPalette(h) && h.compression == NoCompression && RasterFormat(h) == RasterFormatR8G8B8A8
    requires RawPixelCount(h, level) >= 1
    requires UncompressedExtent(h, level) <= |data|
    ensures LevelOffset(h, level) + 4 * RawPixelCount(h, level) <= |data|
    ensures ConvertToRgba8Corrected(h, data, level).value
            == data[LevelOffset(h, level) .. LevelOffset(h, level) + 4 * RawPixelCount(h, level)]
    ensures ConvertToRgba8(h, data, level) == ConvertToRgba8Corrected(h, data, level)
  {
    ConvertersAgreeWithoutPalette(h, data, level);
    var n := RawPixelCount(h, level);
    var off := LevelOffset(h, level);
    var img := DecodeLevel(h, data, level, PaletteLayoutCorrected(h, level));
    assert |img| == n;
    forall k | 0 <= k < n
      ensures off + 4 * k + 4 <= |data| && [img[k].r, img[k].g, img[k].b, img[k].a] == data[off + 4 * k .. off + 4 * k + 4]
    {
      Rgba8Pixel(h, data, level, k);
    }
    assert (n - 1) * 4 + 4 == 4 * n;
    FlattenOfSlices(img, data, off);
  }

  /** Pixel k of an R8G8B8A8 level is the four bytes of its slot. */
  lemma Rgba8Pixel(h: Header, data: Bytes, level: nat, k: nat)
    requires !IsPalette(h) && h.compression == NoCompression && RasterFormat(h) == RasterFormatR8G8B8A8
    requires UncompressedExtent(h, level) <= |data| && k < RawPixelCount(h, level)
    ensures LevelOffset(h, level) + 4 * k + 4 <= |data|
    ensures var c := RawPixel(h, data, level, k);
            [c.r, c.g, c.b, c.a] == data[LevelOffset(h, level) + 4 * k .. LevelOffset(h, level) + 4 * k + 4]
  {
    assert BytesPerPixel(h) == 4 && ReadLength(RasterFormat(h)) == 4;
    SlotWithinExtent(RawPixelCount(h, level), k, 4, 4);
  }

  /** Pixels whose channels are consecutive 4-byte windows of a buffer
      flatten to the buffer's bytes. */
  lemma {:induction false} FlattenOfSlices(img: seq<Rgba>, src: Bytes, off: nat)
    requires off + 4 * |img| <= |src|
    requires forall k :: 0 <= k < |img| ==>
               [img[k].r, img[k].g, img[k].b, img[k].a] == src[off + 4 * k .. off + 4 * k + 4]
    ensures Flatten(img) == src[off .. off + 4 * |img|]
    decreases |img|
  {
    if |img| > 0 {
      var rest := img[1..];
      forall k | 0 <= k < |rest|
        ensures [rest[k].r, rest[k].g, rest[k].b, rest[k].a] == src[off + 4 + 4 * k .. off + 4 + 4 * k + 4]
      {
        assert rest[k] == img[k + 1];
      }
      FlattenOfSlices(rest, src, off + 4);
      assert src[off .. off + 4 * |img|] == src[off .. off + 4] + src[off + 4 .. off + 4 + 4 * |rest|];
    }
  }
}
