/** convertToRGBA8 and canConvert (core/TXDConverter.cpp): one mipmap level
    of a texture's stored bytes decoded into 4-byte RGBA pixels. */
module Converter {
  import opened Wrappers
  import opened TxdTypes
  import opened LittleEndian
  import opened TextureHeader
  import opened Pixels

  /** canConvert: every palette texture, and uncompressed, DXT1 and DXT3
      textures; any other compression code is refused. */
  predicate CanConvert(h: Header) {
    IsPalette(h) || h.compression == NoCompression || h.compression == Dxt1 || h.compression == Dxt3
  }

  /** A side of the output image: the side at that level, but at least 1. */
  function OutputSide(d: nat, level: nat): (r: nat)
    ensures r >= 1
    ensures LevelDimension(d, level) >= 1 ==> r == LevelDimension(d, level)
    ensures LevelDimension(d, level) == 0 ==> r == 1
  {
    if LevelDimension(d, level) < 1 then 1 else LevelDimension(d, level)
  }

  function OutputWidth(h: Header, level: nat): nat {
    OutputSide(h.width, level)
  }

  function OutputHeight(h: Header, level: nat): nat {
    OutputSide(h.height, level)
  }

  /** Where the decoder starts reading a level: past the palette bytes and
      past every earlier level. */
  function LevelOffset(h: Header, level: nat): (off: nat)
    ensures off >= PaletteBytes(h.rasterFormat)
    ensures off - PaletteBytes(h.rasterFormat) == MipmapsSize(h, level)
  {
    PaletteBytes(h.rasterFormat) + MipmapsSize(h, level)
  }

  /** Where a palette texture's colour table and index bytes are read from. */
  datatype PaletteLayout = PaletteLayout(table: nat, indices: nat)

  /** The layout convertToRGBA8 uses: the table at the level offset (which
      already lies past the palette region) and the indices a table's length
      after it. */
  function PaletteLayoutAsWritten(h: Header, level: nat): (l: PaletteLayout)
    ensures l.table == LevelOffset(h, level)
    ensures l.indices == l.table + 4 * PaletteEntries(h.rasterFormat)
  {
    PaletteLayout(LevelOffset(h, level), LevelOffset(h, level) + 4 * PaletteEntries(h.rasterFormat))
  }

  /** The layout the stored buffer has: the table in the palette region at
      the start and the indices of the level at the level offset. */
  function PaletteLayoutCorrected(h: Header, level: nat): (l: PaletteLayout)
    ensures l.table == 0
    ensures l.indices == LevelOffset(h, level)
  {
    PaletteLayout(0, LevelOffset(h, level))
  }

  // ---------------------------------------------------------------- read extents

  /** Pixels of an uncompressed level as convertUncompressed iterates them:
      the level's sides without the clamp to 1. */
  function RawPixelCount(h: Header, level: nat): nat {
    LevelDimension(h.width, level) * LevelDimension(h.height, level)
  }

  /** One past the last byte convertUncompressed reads: the last pixel's slot
      starts (n - 1) * bpp bytes in, and reads ReadLength bytes of it; a level
      without pixels, or a layout that reads nothing, reads no byte at all. */
  function UncompressedExtent(h: Header, level: nat): nat {
    var n := RawPixelCount(h, level);
    var len := ReadLength(RasterFormat(h));
    if n == 0 || len == 0 then 0 else LevelOffset(h, level) + (n - 1) * BytesPerPixel(h) + len
  }

  /** Blocks along a side: ceil(side / 4). */
  function BlocksAlong(side: nat): (n: nat)
    ensures side >= 1 ==> n >= 1
    ensures 4 * n >= side && 4 * n < side + 4
  {
    (side + 3) / 4
  }

  function BlockBytes(c: Compression): nat {
    if c == Dxt1 then 8 else 16
  }

  /** One past the last byte the block decoders read: every block of the
      clamped output image. */
  function BlockExtent(h: Header, level: nat): nat {
    var blocks := BlocksAlong(OutputWidth(h, level)) * BlocksAlong(OutputHeight(h, level));
    NaturalProduct(BlocksAlong(OutputWidth(h, level)), BlocksAlong(OutputHeight(h, level)));
    NaturalProduct(blocks, BlockBytes(h.compression));
    LevelOffset(h, level) + blocks * BlockBytes(h.compression)
  }

  /** One past the last byte the palette decoder may read: the whole colour
      table and one index byte per output pixel. */
  function PaletteExtent(h: Header, level: nat, layout: PaletteLayout): nat {
    var tableEnd := layout.table + 4 * PaletteEntries(h.rasterFormat);
    var indexEnd := layout.indices + OutputWidth(h, level) * OutputHeight(h, level);
    if tableEnd <= indexEnd then indexEnd else tableEnd
  }

  /** The bytes a decode may touch; reading past the caller's buffer is
      undefined behaviour in C++, so the decoders require the buffer to reach it. */
  function ReadExtent(h: Header, level: nat, layout: PaletteLayout): nat {
    if IsPalette(h) then PaletteExtent(h, level, layout)
    else if h.compression == NoCompression then UncompressedExtent(h, level)
    else if IsBlockCompressed(h.compression) then BlockExtent(h, level)
    else 0
  }

  // ---------------------------------------------------------------- palette images

  /** The clamped index of convertPalette: out-of-range indices select entry 0. */
  function ClampIndex(index: Byte, entries: nat): (i: nat)
    ensures entries >= 1 ==> i < entries
    ensures index as nat < entries ==> i == index as nat
    ensures index as nat >= entries ==> i == 0
  {
    if index as nat >= entries then 0 else index as nat
  }

  /** Entry i of a colour table of 32-bit words read on a little-endian host:
      the entry's bytes in memory order are red, green, blue, alpha. */
  function PaletteEntry(data: Bytes, table: nat, i: nat): (c: Rgba)
    requires table + 4 * i + 4 <= |data|
    ensures [c.r, c.g, c.b, c.a] == data[table + 4 * i .. table + 4 * i + 4]
  {
    WordRoundTrip(0, data, table + 4 * i);
    var color := WordAt(data, table + 4 * i);
    Rgba(ByteOf32(color, 0), ByteOf32(color, 1), ByteOf32(color, 2), ByteOf32(color, 3))
  }

  /** convertPalette: output pixel k is the table entry its index byte selects. */
  function PaletteImage(data: Bytes, layout: PaletteLayout, entries: nat, count: nat): (img: seq<Rgba>)
    requires 1 <= entries && layout.table + 4 * entries <= |data| && layout.indices + count <= |data|
    ensures |img| == count
    ensures forall k :: 0 <= k < count ==>
              img[k] == PaletteEntry(data, layout.table, ClampIndex(data[layout.indices + k], entries))
  {
    seq(count, k requires 0 <= k < count =>
      PaletteEntry(data, layout.table, ClampIndex(data[layout.indices + k], entries)))
  }

  // ---------------------------------------------------------------- uncompressed images

  lemma SlotWithinExtent(n: nat, k: nat, bpp: nat, len: nat)
    requires k < n
    ensures k * bpp + len <= (n - 1) * bpp + len
  {
    assert k <= n - 1;
  }

  /** Pixel k of an uncompressed level: its layout read from the pixel's slot. */
  function RawPixel(h: Header, data: Bytes, level: nat, k: nat): (c: Rgba)
    requires !IsPalette(h) && UncompressedExtent(h, level) <= |data| && k < RawPixelCount(h, level)
  {
    var len := ReadLength(RasterFormat(h));
    if len == 0 then DecodeRaw(RasterFormat(h), [])
    else
      var at := LevelOffset(h, level) + k * BytesPerPixel(h);
      SlotWithinExtent(RawPixelCount(h, level), k, BytesPerPixel(h), len);
      DecodeRaw(RasterFormat(h), data[at .. at + len])
  }

  /** convertUncompressed: when both sides of the level are at least 1 every
      pixel is decoded from its slot; otherwise the loops do not run and the
      single output pixel keeps the zeroed buffer's value. */
  function UncompressedImage(h: Header, data: Bytes, level: nat): (img: seq<Rgba>)
    requires !IsPalette(h) && UncompressedExtent(h, level) <= |data|
    ensures |img| == OutputWidth(h, level) * OutputHeight(h, level)
    ensures RawPixelCount(h, level) >= 1 ==>
              forall k :: 0 <= k < |img| ==> img[k] == RawPixel(h, data, level, k)
    ensures RawPixelCount(h, level) == 0 ==> forall k :: 0 <= k < |img| ==> img[k] == Rgba(0, 0, 0, 0)
  {
    var n := RawPixelCount(h, level);
    if n == 0 then
      seq(OutputWidth(h, level) * OutputHeight(h, level), k => Rgba(0, 0, 0, 0))
    else
      seq(n, k requires 0 <= k < n => RawPixel(h, data, level, k))
  }

  // ---------------------------------------------------------------- block images

  /** Multiplying by the same factor keeps the order. */
  lemma {:induction false} MulLe(a: nat, b: nat, c: nat)
    requires a <= b
    ensures a * c <= b * c
  {
    if c > 0 {
      MulLe(a, b, c - 1);
      assert a * c == a * (c - 1) + a;
      assert b * c == b * (c - 1) + b;
    }
  }

  lemma MulSucc(a: nat, b: nat)
    ensures (a + 1) * b == a * b + b
  {
  }

  /** The quotient of two naturals is a natural. */
  lemma QuotientOfNaturals(k: nat, w: nat)
    requires w >= 1
    ensures 0 <= k / w && k == (k / w) * w + k % w
  {
  }

  /** The block and the texel inside it that output pixel k falls in. */
  lemma PixelInBlock(w: nat, ht: nat, k: nat)
    requires w >= 1 && k < w * ht
    ensures 0 <= k / w < ht
    ensures 0 <= (k / w / 4) * BlocksAlong(w) + (k % w) / 4 < BlocksAlong(w) * BlocksAlong(ht)
  {
    QuotientOfNaturals(k, w);
    var px, py := k % w, k / w;
    if py >= ht {
      MulLe(ht, py, w);
    }
    var bw, bh := BlocksAlong(w), BlocksAlong(ht);
    var column, row := px / 4, py / 4;
    MulLe(0, row, bw);
    assert column < bw;
    assert row + 1 <= bh;
    MulSucc(row, bw);
    MulLe(row + 1, bh, bw);
  }

  /** Number, in row order, of pixel (px, py) of an image w pixels wide. */
  function PixelNumber(w: nat, px: nat, py: nat): nat {
    NaturalProduct(py, w);
    py * w + px
  }

  /** Index, in row order, of the block holding output pixel k. */
  function BlockIndex(w: nat, ht: nat, k: nat): (bi: nat)
    requires w >= 1 && k < w * ht
    ensures bi < BlocksAlong(w) * BlocksAlong(ht)
  {
    PixelInBlock(w, ht, k);
    (k / w / 4) * BlocksAlong(w) + (k % w) / 4
  }

  /** Byte offset of block (column, row) of a level, blocks in row order. */
  function BlockOffset(h: Header, level: nat, column: nat, row: nat): nat {
    LevelOffset(h, level) + (row * BlocksAlong(OutputWidth(h, level)) + column) * BlockBytes(h.compression)
  }

  /** Byte offset of the block holding output pixel k. */
  function BlockAt(off: nat, w: nat, ht: nat, bytes: nat, k: nat): (at: nat)
    requires w >= 1 && k < w * ht
    ensures at + bytes <= off + BlocksAlong(w) * BlocksAlong(ht) * bytes
  {
    var bi := BlockIndex(w, ht, k);
    BlockOffsetWithin(bi, BlocksAlong(w) * BlocksAlong(ht), bytes);
    off + bi * bytes
  }

  lemma BlockOffsetWithin(bi: nat, blocks: nat, bytes: nat)
    requires bi < blocks
    ensures bi * bytes + bytes <= blocks * bytes
  {
    assert bi * bytes + bytes == (bi + 1) * bytes;
  }

  /** The machine-word texel coordinate of a column or row inside a block. */
  function Coord(n: nat): (c: TexelCoord)
    requires n < 4
    ensures c as int == n
  {
    if n == 0 then 0 else if n == 1 then 1 else if n == 2 then 2 else 3
  }

  /** Texel (x, y) of the block at `at`, decoded by the level's format. */
  function BlockTexel(h: Header, data: Bytes, at: nat, x: TexelCoord, y: TexelCoord): Rgba
    requires IsBlockCompressed(h.compression) && at + BlockBytes(h.compression) <= |data|
  {
    if h.compression == Dxt1 then Dxt1Texel(data, at, x, y) else Dxt3Texel(data, at, x, y)
  }

  /** convertDXT1 / convertDXT3: output pixel (px, py) is texel
      (px mod 4, py mod 4) of block (px / 4, py / 4), blocks in row order. */
  function BlockPixel(h: Header, data: Bytes, level: nat, k: nat): Rgba
    requires IsBlockCompressed(h.compression) && BlockExtent(h, level) <= |data|
    requires k < OutputWidth(h, level) * OutputHeight(h, level)
  {
    var w, ht := OutputWidth(h, level), OutputHeight(h, level);
    var at := BlockAt(LevelOffset(h, level), w, ht, BlockBytes(h.compression), k);
    var x, y := Coord((k % w) % 4), Coord((k / w) % 4);
    BlockTexel(h, data, at, x, y)
  }

  function BlockImage(h: Header, data: Bytes, level: nat): (img: seq<Rgba>)
    requires IsBlockCompressed(h.compression) && BlockExtent(h, level) <= |data|
    ensures |img| == OutputWidth(h, level) * OutputHeight(h, level)
    ensures forall k :: 0 <= k < |img| ==> img[k] == BlockPixel(h, data, level, k)
  {
    NaturalProduct(OutputWidth(h, level), OutputHeight(h, level));
    var n := OutputWidth(h, level) * OutputHeight(h, level);
    seq(n, k requires 0 <= k < n => BlockPixel(h, data, level, k))
  }

  // ---------------------------------------------------------------- convertToRGBA8

  /** The decoded pixels of a level, by the path convertToRGBA8 dispatches on. */
  function DecodeLevel(h: Header, data: Bytes, level: nat, layout: PaletteLayout): (img: seq<Rgba>)
    requires CanConvert(h) && ReadExtent(h, level, layout) <= |data|
    ensures |img| == OutputWidth(h, level) * OutputHeight(h, level)
  {
    if IsPalette(h) then
      PaletteImage(data, layout, PaletteEntries(h.rasterFormat), OutputWidth(h, level) * OutputHeight(h, level))
    else if h.compression == NoCompression then UncompressedImage(h, data, level)
    else BlockImage(h, data, level)
  }

  /** The output buffer: four bytes per pixel, in pixel order. */
  function Flatten(img: seq<Rgba>): (s: Bytes)
    ensures |s| == 4 * |img|
    ensures forall k :: 0 <= k < |img| ==> s[4 * k .. 4 * k + 4] == [img[k].r, img[k].g, img[k].b, img[k].a]
  {
    if |img| == 0 then []
    else
      var t := Flatten(img[1..]);
      FlattenStep(img, t);
      [img[0].r, img[0].g, img[0].b, img[0].a] + t
  }

  /** Putting the first pixel's four bytes before the bytes of the others
      shifts every later pixel's window by four. */
  lemma FlattenStep(img: seq<Rgba>, t: Bytes)
    requires |img| > 0 && |t| == 4 * (|img| - 1)
    requires forall k :: 0 <= k < |img| - 1 ==> t[4 * k .. 4 * k + 4] == [img[1..][k].r, img[1..][k].g, img[1..][k].b, img[1..][k].a]
    ensures forall k :: 0 <= k < |img| ==> ([img[0].r, img[0].g, img[0].b, img[0].a] + t)[4 * k .. 4 * k + 4] == [img[k].r, img[k].g, img[k].b, img[k].a]
  {
    var q := [img[0].r, img[0].g, img[0].b, img[0].a];
    forall k | 0 <= k < |img|
      ensures (q + t)[4 * k .. 4 * k + 4] == [img[k].r, img[k].g, img[k].b, img[k].a]
    {
      if k > 0 {
        assert (q + t)[4 * k .. 4 * k + 4] == t[4 * (k - 1) .. 4 * (k - 1) + 4];
        assert img[1..][k - 1] == img[k];
      }
    }
  }

  /** convertToRGBA8 as written: no buffer exactly when canConvert refuses the
      texture, otherwise width * height * 4 bytes for the clamped sides of the
      level. Palette textures are read with the as-written layout. */
  function ConvertToRgba8(h: Header, data: Bytes, level: nat := 0): (r: Option<Bytes>)
    requires CanConvert(h) ==> ReadExtent(h, level, PaletteLayoutAsWritten(h, level)) <= |data|
    ensures r.Some? <==> CanConvert(h)
    ensures r.Some? ==> |r.value| == OutputWidth(h, level) * OutputHeight(h, level) * 4
  {
    if !CanConvert(h) then None
    else Some(Flatten(DecodeLevel(h, data, level, PaletteLayoutAsWritten(h, level))))
  }

  /** convertToRGBA8 with the palette table read from the palette region. */
  function ConvertToRgba8Corrected(h: Header, data: Bytes, level: nat := 0): (r: Option<Bytes>)
    requires CanConvert(h) ==> ReadExtent(h, level, PaletteLayoutCorrected(h, level)) <= |data|
    ensures r.Some? <==> CanConvert(h)
    ensures r.Some? ==> |r.value| == OutputWidth(h, level) * OutputHeight(h, level) * 4
  {
    if !CanConvert(h) then None
    else Some(Flatten(DecodeLevel(h, data, level, PaletteLayoutCorrected(h, level))))
  }
}
