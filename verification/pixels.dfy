/** Per-pixel channel extraction and the S3TC block arithmetic used by the
    decoder in core/TXDConverter.cpp. Everything here works on one pixel or
    one 4x4 block; the image-level functions are in module Converter. */
module Pixels {
  import opened TxdTypes
  import opened LittleEndian

  /** One decoded output pixel: the four bytes written per pixel, in order. */
  datatype Rgba = Rgba(r: Byte, g: Byte, b: Byte, a: Byte)

  /** A colour without alpha, as held in the block decoders' colour table. */
  datatype Rgb = Rgb(r: Byte, g: Byte, b: Byte)

  /** getPixel16: a 16-bit pixel stored least significant byte first. */
  function Pixel16(lo: Byte, hi: Byte): (p: bv16)
    ensures p & 0xFF == lo as bv16 && p >> 8 == hi as bv16
  {
    (lo as bv16) | ((hi as bv16) << 8)
  }

  // ---------------------------------------------------------------- field expansion

  /** A 5-bit field widened to 8 bits by a plain left shift (no replication
      of the high bits into the low ones), so the maximum is 248. */
  function Expand5(field: bv16): (c: Byte)
    ensures c & 7 == 0
    ensures (c >> 3) as bv16 == field & 0x1F
  {
    ((field & 0x1F) << 3) as Byte
  }

  /** A 6-bit field widened by a left shift of 2; the maximum is 252. */
  function Expand6(field: bv16): (c: Byte)
    ensures c & 3 == 0
    ensures (c >> 2) as bv16 == field & 0x3F
  {
    ((field & 0x3F) << 2) as Byte
  }

  /** A 4-bit field widened by a left shift of 4; the maximum is 240. */
  function Expand4(field: bv16): (c: Byte)
    ensures c & 0xF == 0
    ensures (c >> 4) as bv16 == field & 0xF
  {
    ((field & 0xF) << 4) as Byte
  }

  /** The colour of an R5G6B5 word: red in bits 11..15, green in 5..10,
      blue in 0..4. Used by both the uncompressed and the block decoders. */
  function Decode565(p: bv16): (c: Rgb)
    ensures c.r <= 248 && c.g <= 252 && c.b <= 248
    ensures c.r & 7 == 0 && (c.r >> 3) as bv16 == (p >> 11) & 0x1F
    ensures c.g & 3 == 0 && (c.g >> 2) as bv16 == (p >> 5) & 0x3F
    ensures c.b & 7 == 0 && (c.b >> 3) as bv16 == p & 0x1F
  {
    Rgb(Expand5(p >> 11), Expand6(p >> 5), Expand5(p))
  }

  /** The word a colour came from: each channel's significant bits put back. */
  function Pack565(c: Rgb): bv16 {
    (((c.r >> 3) as bv16) << 11) | (((c.g >> 2) as bv16) << 5) | ((c.b >> 3) as bv16)
  }

  /** Decoding an R5G6B5 word loses nothing: packing the channels gives it back. */
  lemma Decode565RoundTrip(p: bv16)
    ensures Pack565(Decode565(p)) == p
  {
  }

  /** An A1R5G5B5 word: alpha 255 when bit 15 is set and 0 otherwise, then
      5-bit red, green and blue. */
  function Decode1555(p: bv16): (c: Rgba)
    ensures c.a == 255 <==> p >> 15 == 1
    ensures c.a == 0 <==> p >> 15 == 0
    ensures c.r & 7 == 0 && (c.r >> 3) as bv16 == (p >> 10) & 0x1F
    ensures c.g & 7 == 0 && (c.g >> 3) as bv16 == (p >> 5) & 0x1F
    ensures c.b & 7 == 0 && (c.b >> 3) as bv16 == p & 0x1F
  {
    Rgba(Expand5(p >> 10), Expand5(p >> 5), Expand5(p), if (p >> 15) & 1 == 1 then 255 else 0)
  }

  function Pack1555(c: Rgba): bv16 {
    (if c.a == 255 then 0x8000 else 0)
    | (((c.r >> 3) as bv16) << 10) | (((c.g >> 3) as bv16) << 5) | ((c.b >> 3) as bv16)
  }

  lemma Decode1555RoundTrip(p: bv16)
    ensures Pack1555(Decode1555(p)) == p
  {
  }

  /** An R4G4B4A4 word: four 4-bit channels, red in the top nibble. */
  function Decode4444(p: bv16): (c: Rgba)
    ensures c.r <= 240 && c.g <= 240 && c.b <= 240 && c.a <= 240
    ensures c.r & 0xF == 0 && (c.r >> 4) as bv16 == (p >> 12) & 0xF
    ensures c.g & 0xF == 0 && (c.g >> 4) as bv16 == (p >> 8) & 0xF
    ensures c.b & 0xF == 0 && (c.b >> 4) as bv16 == (p >> 4) & 0xF
    ensures c.a & 0xF == 0 && (c.a >> 4) as bv16 == p & 0xF
  {
    Rgba(Expand4(p >> 12), Expand4(p >> 8), Expand4(p >> 4), Expand4(p))
  }

  function Pack4444(c: Rgba): bv16 {
    (((c.r >> 4) as bv16) << 12) | (((c.g >> 4) as bv16) << 8)
    | (((c.b >> 4) as bv16) << 4) | ((c.a >> 4) as bv16)
  }

  lemma Decode4444RoundTrip(p: bv16)
    ensures Pack4444(Decode4444(p)) == p
  {
  }

  // ---------------------------------------------------------------- uncompressed layouts

  /** How many bytes of its pixel slot a base layout reads: all four for the
      32-bit layouts, three for B8G8R8 (whose slot is four bytes wide), two for
      the 16-bit layouts the decoder knows, one for LUM8 and none for R5G5B5
      and unknown layouts, which decode to opaque black. */
  function ReadLength(format: bv32): (n: nat)
    ensures n <= 4
  {
    if format == RasterFormatR8G8B8A8 || format == RasterFormatB8G8R8A8 then 4
    else if format == RasterFormatB8G8R8 then 3
    else if format == RasterFormatR5G6B5 || format == RasterFormatA1R5G5B5 || format == RasterFormatR4G4B4A4 then 2
    else if format == RasterFormatLUM8 then 1
    else 0
  }

  /** One pixel of an uncompressed level, from the bytes its layout reads. */
  function DecodeRaw(format: bv32, p: Bytes): (c: Rgba)
    requires |p| == ReadLength(format)
    ensures format == RasterFormatR8G8B8A8 ==> c == Rgba(p[0], p[1], p[2], p[3])
    ensures format == RasterFormatB8G8R8A8 ==> c == Rgba(p[2], p[1], p[0], p[3])
    ensures format == RasterFormatB8G8R8 ==> c == Rgba(p[2], p[1], p[0], 255)
    ensures format == RasterFormatLUM8 ==> c == Rgba(p[0], p[0], p[0], 255)
    ensures format == RasterFormatR5G6B5 ==>
              c.a == 255 && Rgb(c.r, c.g, c.b) == Decode565(Pixel16(p[0], p[1]))
              && Pack565(Rgb(c.r, c.g, c.b)) == Pixel16(p[0], p[1])
    ensures format == RasterFormatA1R5G5B5 ==>
              c == Decode1555(Pixel16(p[0], p[1])) && Pack1555(c) == Pixel16(p[0], p[1])
    ensures format == RasterFormatR4G4B4A4 ==>
              c == Decode4444(Pixel16(p[0], p[1])) && Pack4444(c) == Pixel16(p[0], p[1])
    ensures ReadLength(format) == 0 ==> c == Rgba(0, 0, 0, 255)
  {
    if format == RasterFormatR8G8B8A8 then Rgba(p[0], p[1], p[2], p[3])
    else if format == RasterFormatB8G8R8A8 then Rgba(p[2], p[1], p[0], p[3])
    else if format == RasterFormatB8G8R8 then Rgba(p[2], p[1], p[0], 255)
    else if format == RasterFormatR5G6B5 then
      var px := Pixel16(p[0], p[1]);
      Decode565RoundTrip(px);
      var c := Decode565(px);
      Rgba(c.r, c.g, c.b, 255)
    else if format == RasterFormatA1R5G5B5 then
      Decode1555RoundTrip(Pixel16(p[0], p[1]));
      Decode1555(Pixel16(p[0], p[1]))
    else if format == RasterFormatR4G4B4A4 then
      Decode4444RoundTrip(Pixel16(p[0], p[1]));
      Decode4444(Pixel16(p[0], p[1]))
    else if format == RasterFormatLUM8 then Rgba(p[0], p[0], p[0], 255)
    else Rgba(0, 0, 0, 255)
  }

  // ---------------------------------------------------------------- S3TC blocks

  /** c lies between a and b, whichever is larger. */
  predicate Within(c: Byte, a: Byte, b: Byte) {
    a as int <= c as int <= b as int || b as int <= c as int <= a as int
  }

  /** (2a + b) / 3 with truncating division: the colour a third of the way
      from a to b. */
  function TwoThirds(a: Byte, b: Byte): (c: Byte)
    ensures 3 * c as int <= 2 * a as int + b as int < 3 * c as int + 3
    ensures Within(c, a, b)
  {
    ToByte((2 * a as int + b as int) / 3)
  }

  /** (a + b) / 2 with truncating division. */
  function Half(a: Byte, b: Byte): (c: Byte)
    ensures 2 * c as int <= a as int + b as int < 2 * c as int + 2
    ensures Within(c, a, b)
  {
    ToByte((a as int + b as int) / 2)
  }

  /** Channel-wise: a colour between two others, each channel between the
      corresponding channels of the endpoints. */
  predicate Between(c: Rgb, x: Rgb, y: Rgb) {
    Within(c.r, x.r, y.r) && Within(c.g, x.g, y.g) && Within(c.b, x.b, y.b)
  }

  function ThirdOfWay(x: Rgb, y: Rgb): (c: Rgb)
    ensures Between(c, x, y) && Between(c, y, x)
  {
    Rgb(TwoThirds(x.r, y.r), TwoThirds(x.g, y.g), TwoThirds(x.b, y.b))
  }

  function Midpoint(x: Rgb, y: Rgb): (c: Rgb)
    ensures Between(c, x, y)
  {
    Rgb(Half(x.r, y.r), Half(x.g, y.g), Half(x.b, y.b))
  }

  /** Between two equal endpoints there is only the endpoint itself. */
  lemma BetweenSame(c: Rgb, x: Rgb)
    requires Between(c, x, x)
    ensures c == x
  {
  }

  /** The four colours of a block. In four-colour mode colours 2 and 3 lie a
      third and two thirds of the way from colour 0 to colour 1; otherwise
      colour 2 is their midpoint and colour 3 is black. */
  function ColorTable(c0: bv16, c1: bv16, fourColor: bool): (t: seq<Rgb>)
    ensures |t| == 4
    ensures t[0] == Decode565(c0) && t[1] == Decode565(c1)
    ensures Between(t[2], t[0], t[1])
    ensures fourColor ==> Between(t[3], t[0], t[1])
    ensures fourColor ==>
              t[2] == Rgb(TwoThirds(t[0].r, t[1].r), TwoThirds(t[0].g, t[1].g), TwoThirds(t[0].b, t[1].b))
              && t[3] == Rgb(TwoThirds(t[1].r, t[0].r), TwoThirds(t[1].g, t[0].g), TwoThirds(t[1].b, t[0].b))
    ensures !fourColor ==> t[2] == Rgb(Half(t[0].r, t[1].r), Half(t[0].g, t[1].g), Half(t[0].b, t[1].b))
    ensures !fourColor ==> t[3] == Rgb(0, 0, 0)
  {
    var a, b := Decode565(c0), Decode565(c1);
    if fourColor then [a, b, ThirdOfWay(a, b), ThirdOfWay(b, a)]
    else [a, b, Midpoint(a, b), Rgb(0, 0, 0)]
  }

  /** A texel position inside a 4x4 block; the decoders compute with it in
      machine words, so it is kept as one. */
  type TexelCoord = c: bv32 | c < 4

  /** The 2-bit colour index of texel (x, y): bits 2(4y + x) of the index word. */
  function TexelIndex(indices: bv32, x: TexelCoord, y: TexelCoord): (i: nat)
    ensures i < 4
  {
    ((indices >> ((y * 4 + x) * 2)) & 3) as nat
  }

  /** The index word holds one byte per row, row 0 in its lowest byte, and
      within a row the leftmost texel in the lowest two bits. */
  lemma TexelIndexIsRowByte(block: Bytes, i: nat, x: TexelCoord, y: TexelCoord)
    requires i + 4 <= |block|
    ensures TexelIndex(WordAt(block, i), x, y) == ((block[i + y as int] >> (2 * x as bv8)) & 3) as nat
  {
  }

  /** Texel (x, y) of an 8-byte DXT1 block starting at `at`: two R5G6B5
      endpoints, then the index word. The block is in four-colour mode when
      the first endpoint, read as an unsigned 16-bit number, exceeds the
      second; alpha is 0 only for index 3 in three-colour mode. */
  function Dxt1Texel(data: Bytes, at: nat, x: TexelCoord, y: TexelCoord): (c: Rgba)
    requires at + 8 <= |data|
    ensures c.a == 0 <==> Pixel16(data[at], data[at + 1]) <= Pixel16(data[at + 2], data[at + 3])
                           && TexelIndex(WordAt(data, at + 4), x, y) == 3
    ensures c.a != 0 ==> c.a == 255
    ensures Rgb(c.r, c.g, c.b) ==
              ColorTable(Pixel16(data[at], data[at + 1]), Pixel16(data[at + 2], data[at + 3]),
                         Pixel16(data[at], data[at + 1]) > Pixel16(data[at + 2], data[at + 3]))
                [TexelIndex(WordAt(data, at + 4), x, y)]
  {
    Dxt1Color(Pixel16(data[at], data[at + 1]), Pixel16(data[at + 2], data[at + 3]), TexelIndex(WordAt(data, at + 4), x, y))
  }

  /** The colour a DXT1 block with endpoints c0 and c1 gives a texel with
      colour index `index`. */
  function Dxt1Color(c0: bv16, c1: bv16, index: nat): (c: Rgba)
    requires index < 4
    ensures c.a == 0 <==> c0 <= c1 && index == 3
    ensures c.a != 0 ==> c.a == 255
    ensures Rgb(c.r, c.g, c.b) == ColorTable(c0, c1, c0 > c1)[index]
  {
    var color := ColorTable(c0, c1, c0 > c1)[index];
    Rgba(color.r, color.g, color.b, if c0 <= c1 && index == 3 then 0 else 255)
  }

  /** The 64-bit explicit-alpha field of a DXT3 block, assembled least
      significant byte first. */
  function AlphaBits(data: Bytes, at: nat): bv64
    requires at + 8 <= |data|
  {
    (data[at] as bv64) | ((data[at + 1] as bv64) << 8) | ((data[at + 2] as bv64) << 16)
    | ((data[at + 3] as bv64) << 24) | ((data[at + 4] as bv64) << 32) | ((data[at + 5] as bv64) << 40)
    | ((data[at + 6] as bv64) << 48) | ((data[at + 7] as bv64) << 56)
  }

  /** DXT3 alpha of texel (x, y): nibble 4y + x of the alpha field, shifted
      up by four bits (so 240 at most, never 255). */
  function Dxt3Alpha(data: Bytes, at: nat, x: TexelCoord, y: TexelCoord): (a: Byte)
    requires at + 8 <= |data|
    ensures a & 0xF == 0
  {
    (((AlphaBits(data, at) >> ((y * 4 + x) * 4)) & 0xF) << 4) as Byte
  }

  /** Each row of a DXT3 alpha field is two bytes, and within a byte the
      left texel takes the low nibble. */
  lemma Dxt3AlphaIsNibble(data: Bytes, at: nat, x: TexelCoord, y: TexelCoord)
    requires at + 8 <= |data|
    ensures Dxt3Alpha(data, at, x, y) ==
              if x % 2 == 0 then (data[at + (2 * y + x / 2) as int] & 0xF) << 4
              else data[at + (2 * y + x / 2) as int] & 0xF0
  {
  }

  /** Texel (x, y) of a 16-byte DXT3 block: eight bytes of explicit alpha,
      then a colour block decoded always in four-colour mode. */
  function Dxt3Texel(data: Bytes, at: nat, x: TexelCoord, y: TexelCoord): (c: Rgba)
    requires at + 16 <= |data|
    ensures c.a == Dxt3Alpha(data, at, x, y)
    ensures Rgb(c.r, c.g, c.b) ==
              ColorTable(Pixel16(data[at + 8], data[at + 9]), Pixel16(data[at + 10], data[at + 11]), true)
                [TexelIndex(WordAt(data, at + 12), x, y)]
  {
    var c0 := Pixel16(data[at + 8], data[at + 9]);
    var c1 := Pixel16(data[at + 10], data[at + 11]);
    var color := ColorTable(c0, c1, true)[TexelIndex(WordAt(data, at + 12), x, y)];
    Rgba(color.r, color.g, color.b, Dxt3Alpha(data, at, x, y))
  }
}
