/** The 88-byte texture-native structure of core/TXDArchive.cpp: its byte
    layout, the fixed-size name fields, and how the writer fills it from a
    descriptor and the reader derives the compression and alpha flag from it. */
module NativeStruct {
  import opened TxdTypes
  import opened LittleEndian
  import opened TextureHeader

  const StructSize: nat := 88
  const NameFieldSize: nat := 32

  /** The platform words the reader distinguishes. */
  const PlatformD3D9: bv32 := 9
  const PlatformPS2: bv32 := 0x32_5350

  /** The rasterType the writer stores. */
  const RasterTypeTexture: Byte := 4

  /** The fields in file order; 16-bit fields hold their unsigned bit
      pattern, names hold all 32 bytes of their field. */
  datatype NativeStruct = NativeStruct(
    platform: bv32,
    filterFlags: u16,
    vWrap: Byte,
    uWrap: Byte,
    diffuseName: Bytes,
    alphaName: Bytes,
    rasterFormat: bv32,
    alphaOrCompression: bv32,
    width: u16,
    height: u16,
    bpp: Byte,
    mipmapCount: Byte,
    rasterType: Byte,
    compressionOrAlpha: Byte)

  predicate WellFormed(n: NativeStruct) {
    |n.diffuseName| == NameFieldSize && |n.alphaName| == NameFieldSize
  }

  // ---------------------------------------------------------------- byte layout

  /** Bytes 0..7: platform, filter flags and the two wrap modes. */
  function EncodeHead(n: NativeStruct): (s: Bytes)
    ensures |s| == 8
  {
    WordBytes(n.platform) + U16Bytes(n.filterFlags) + [n.vWrap, n.uWrap]
  }

  /** Bytes 72..87: format word, FourCC word, dimensions and four bytes. */
  function EncodeTail(n: NativeStruct): (s: Bytes)
    ensures |s| == 16
  {
    WordBytes(n.rasterFormat) + WordBytes(n.alphaOrCompression)
    + U16Bytes(n.width) + U16Bytes(n.height)
    + [n.bpp, n.mipmapCount, n.rasterType, n.compressionOrAlpha]
  }

  function EncodeStruct(n: NativeStruct): (s: Bytes)
    requires WellFormed(n)
    ensures |s| == StructSize
    ensures s[..8] == EncodeHead(n) && s[72..] == EncodeTail(n)
    ensures s[8..40] == n.diffuseName && s[40..72] == n.alphaName
  {
    EncodeHead(n) + n.diffuseName + n.alphaName + EncodeTail(n)
  }

  function Word(b: Bytes): bv32
    requires |b| == 4
  {
    WordAt(b, 0)
  }

  function Half(b: Bytes): u16
    requires |b| == 2
  {
    U16At(b, 0)
  }

  /** The structure as the reader finds it in 88 bytes. */
  function DecodeStruct(s: Bytes): (n: NativeStruct)
    requires |s| == StructSize
    ensures WellFormed(n)
    ensures n.diffuseName == s[8..40] && n.alphaName == s[40..72]
    ensures n.vWrap == s[6] && n.uWrap == s[7] && n.mipmapCount == s[85] && n.compressionOrAlpha == s[87]
  {
    NativeStruct(
      Word(s[0..4]), Half(s[4..6]), s[6], s[7], s[8..40], s[40..72],
      Word(s[72..76]), Word(s[76..80]), Half(s[80..82]), Half(s[82..84]),
      s[84], s[85], s[86], s[87])
  }

  lemma HalfRoundTrip(v: u16, b: Bytes)
    requires |b| == 2
    ensures Half(U16Bytes(v)) == v
    ensures U16Bytes(Half(b)) == b
  {
    assert U16Bytes(v)[0..2] == U16Bytes(v);
    assert b[0..2] == b;
    assert Pow256(2) == 0x1_0000;
    LeBytesOfValue(b);
  }

  lemma WordRoundTrip4(w: bv32, b: Bytes)
    requires |b| == 4
    ensures Word(WordBytes(w)) == w
    ensures WordBytes(Word(b)) == b
  {
    WordRoundTrip(w, b, 0);
    assert b[0..4] == b;
  }

  lemma DecodeHead(n: NativeStruct, s: Bytes)
    requires |s| == StructSize && s[..8] == EncodeHead(n)
    ensures Word(s[0..4]) == n.platform && Half(s[4..6]) == n.filterFlags
    ensures s[6] == n.vWrap && s[7] == n.uWrap
  {
    var h := EncodeHead(n);
    assert s[0..4] == h[0..4] == WordBytes(n.platform);
    assert s[4..6] == h[4..6] == U16Bytes(n.filterFlags);
    assert s[6] == h[6] && s[7] == h[7];
    WordRoundTrip4(n.platform, s[0..4]);
    HalfRoundTrip(n.filterFlags, s[4..6]);
  }

  lemma DecodeTail(n: NativeStruct, s: Bytes)
    requires |s| == StructSize && s[72..] == EncodeTail(n)
    ensures Word(s[72..76]) == n.rasterFormat && Word(s[76..80]) == n.alphaOrCompression
    ensures Half(s[80..82]) == n.width && Half(s[82..84]) == n.height
    ensures s[84] == n.bpp && s[85] == n.mipmapCount && s[86] == n.rasterType && s[87] == n.compressionOrAlpha
  {
    var t := EncodeTail(n);
    assert s[72..76] == t[0..4] == WordBytes(n.rasterFormat);
    assert s[76..80] == t[4..8] == WordBytes(n.alphaOrCompression);
    assert s[80..82] == t[8..10] == U16Bytes(n.width);
    assert s[82..84] == t[10..12] == U16Bytes(n.height);
    assert s[84] == t[12] && s[85] == t[13] && s[86] == t[14] && s[87] == t[15];
    WordRoundTrip4(n.rasterFormat, s[72..76]);
    WordRoundTrip4(n.alphaOrCompression, s[76..80]);
    HalfRoundTrip(n.width, s[80..82]);
    HalfRoundTrip(n.height, s[82..84]);
  }

  /** Decoding the encoding gives the structure back. */
  lemma DecodeEncode(n: NativeStruct)
    requires WellFormed(n)
    ensures DecodeStruct(EncodeStruct(n)) == n
  {
    var s := EncodeStruct(n);
    DecodeHead(n, s);
    DecodeTail(n, s);
  }

  /** Encoding the decoding gives the 88 bytes back. */
  lemma EncodeDecode(s: Bytes)
    requires |s| == StructSize
    ensures EncodeStruct(DecodeStruct(s)) == s
  {
    var n := DecodeStruct(s);
    WordRoundTrip4(0, s[0..4]);
    WordRoundTrip4(0, s[72..76]);
    WordRoundTrip4(0, s[76..80]);
    HalfRoundTrip(0, s[4..6]);
    HalfRoundTrip(0, s[80..82]);
    HalfRoundTrip(0, s[82..84]);
    StructFields(s);
    assert EncodeHead(n) == s[..8];
    assert EncodeTail(n) == s[72..];
  }

  /** The 88 bytes cut at the field boundaries of the structure. */
  lemma StructFields(s: Bytes)
    requires |s| == StructSize
    ensures s[..8] == s[0..4] + s[4..6] + [s[6], s[7]]
    ensures s[72..] == s[72..76] + s[76..80] + s[80..82] + s[82..84] + [s[84], s[85], s[86], s[87]]
    ensures s == s[..8] + s[8..40] + s[40..72] + s[72..]
  {
  }

  // ---------------------------------------------------------------- names

  /** The bytes of a string up to (not including) its first NUL: what
      c_str() hands on, and what strnlen bounds within a field. */
  function CString(field: Bytes): (r: Bytes)
    ensures |r| <= |field| && r == field[..|r|]
    ensures forall i :: 0 <= i < |r| ==> r[i] != 0
    ensures |r| < |field| ==> field[|r|] == 0
  {
    if |field| == 0 || field[0] == 0 then []
    else [field[0]] + CString(field[1..])
  }

  predicate NulFree(s: Bytes) {
    forall i :: 0 <= i < |s| ==> s[i] != 0
  }

  /** A name field as the writer fills it: strncpy of at most 31 bytes of
      the name's C string into a zeroed 32-byte field, so the last byte is
      always NUL. */
  function NameField(name: Bytes): (f: Bytes)
    ensures |f| == NameFieldSize
    ensures f[NameFieldSize - 1] == 0
  {
    var c := CString(name);
    var k := if |c| < MaxNameLength then |c| else MaxNameLength;
    c[..k] + Zeros(NameFieldSize - k)
  }

  /** A C string ends at the first NUL. */
  lemma {:induction false} CStringOfTerminated(x: Bytes, y: Bytes)
    requires NulFree(x) && |y| > 0 && y[0] == 0
    ensures CString(x + y) == x
  {
    if |x| > 0 {
      assert (x + y)[1..] == x[1..] + y;
      CStringOfTerminated(x[1..], y);
    } else {
      assert x + y == y;
    }
  }

  /** Without a NUL the whole string is the C string. */
  lemma {:induction false} CStringOfNulFree(s: Bytes)
    requires NulFree(s)
    ensures CString(s) == s
  {
    if |s| > 0 {
      CStringOfNulFree(s[1..]);
    }
  }

  /** The reader recovers what the writer stored: the name's bytes before
      its first NUL, cut to 31. */
  lemma NameFieldRoundTrip(name: Bytes)
    ensures var c := CString(name);
            CString(NameField(name)) == if |c| <= MaxNameLength then c else c[..MaxNameLength]
    ensures NulFree(name) && |name| <= MaxNameLength ==> CString(NameField(name)) == name
  {
    var c := CString(name);
    var k := if |c| < MaxNameLength then |c| else MaxNameLength;
    CStringOfTerminated(c[..k], Zeros(NameFieldSize - k));
    if NulFree(name) {
      CStringOfNulFree(name);
    }
  }

  // ---------------------------------------------------------------- compression and alpha

  const FourCCD: Byte := 0x44
  const FourCCX: Byte := 0x58
  const FourCCT: Byte := 0x54
  const FourCC1: Byte := 0x31
  const FourCC3: Byte := 0x33

  /** The alphaOrCompression word holding the characters "DXT1" / "DXT3". */
  const FourCCDxt1: bv32 := 0x3154_5844
  const FourCCDxt3: bv32 := 0x3354_5844

  /** A word is "DXT1" or "DXT3" exactly when its four bytes, lowest first,
      spell it. */
  lemma FourCCBytes(w: bv32)
    ensures (ByteOf32(w, 0) == FourCCD && ByteOf32(w, 1) == FourCCX && ByteOf32(w, 2) == FourCCT
             && ByteOf32(w, 3) == FourCC1) <==> w == FourCCDxt1
    ensures (ByteOf32(w, 0) == FourCCD && ByteOf32(w, 1) == FourCCX && ByteOf32(w, 2) == FourCCT
             && ByteOf32(w, 3) == FourCC3) <==> w == FourCCDxt3
  {
  }

  /** The compression a D3D9 structure's FourCC names: "DXT1" or "DXT3",
      anything else reads as uncompressed. */
  function FourCCCompression(w: bv32): (c: Compression)
    ensures c == Dxt1 <==> w == FourCCDxt1
    ensures c == Dxt3 <==> w == FourCCDxt3
    ensures c != Dxt1 && c != Dxt3 ==> c == NoCompression
  {
    FourCCBytes(w);
    if ByteOf32(w, 0) == FourCCD && ByteOf32(w, 1) == FourCCX && ByteOf32(w, 2) == FourCCT then
      if ByteOf32(w, 3) == FourCC1 then Dxt1
      else if ByteOf32(w, 3) == FourCC3 then Dxt3
      else NoCompression
    else NoCompression
  }

  /** The compression and alpha flag the reader derives: D3D9 structures
      carry a FourCC and mark alpha with 9 or 1 in compressionOrAlpha; others
      carry the compression in compressionOrAlpha (1 is DXT1, 3 is DXT3) and
      alpha as alphaOrCompression == 1. Never an unnamed compression code. */
  function ReadCompression(n: NativeStruct): (r: (Compression, bool))
    ensures !r.0.OtherCompression?
    ensures n.platform == PlatformD3D9 ==>
              r.0 == FourCCCompression(n.alphaOrCompression)
              && (r.1 <==> n.compressionOrAlpha == 9 || n.compressionOrAlpha == 1)
    ensures n.platform != PlatformD3D9 ==>
              (r.0 == Dxt1 <==> n.compressionOrAlpha == 1)
              && (r.0 == Dxt3 <==> n.compressionOrAlpha == 3)
              && (r.1 <==> n.alphaOrCompression == 1)
  {
    if n.platform == PlatformD3D9 then
      (FourCCCompression(n.alphaOrCompression), n.compressionOrAlpha == 9 || n.compressionOrAlpha == 1)
    else
      var c := if n.compressionOrAlpha == 1 then Dxt1 else if n.compressionOrAlpha == 3 then Dxt3 else NoCompression;
      (c, n.alphaOrCompression == 1)
  }

  /** The alphaOrCompression word the writer stores: the FourCC for the
      block formats, 21 (alpha) or 22 (no alpha) when uncompressed, 22 for
      any other code. */
  function WrittenFourCC(h: Header): (w: bv32)
    ensures FourCCCompression(w) == (if h.compression.OtherCompression? then NoCompression else h.compression)
  {
    match h.compression
    case Dxt1 => FourCCDxt1
    case Dxt3 => FourCCDxt3
    case NoCompression => if h.alphaUsed then 21 else 22
    case OtherCompression(_) => 22
  }

  /** compressionOrAlpha as the writer stores it: 1 / 0 for an uncompressed
      texture with / without alpha, 9 / 8 for the others. */
  function WrittenCompressionOrAlpha(h: Header): (b: Byte)
    ensures b == 9 || b == 1 <==> h.alphaUsed
  {
    if h.alphaUsed then (if h.compression == NoCompression then 1 else 9)
    else (if h.compression == NoCompression then 0 else 8)
  }

  /** The structure writeTextureNative fills from a descriptor. */
  function WriteStruct(h: Header): (n: NativeStruct)
    ensures WellFormed(n)
    ensures n.platform == PlatformD3D9 && n.rasterType == RasterTypeTexture
    ensures n.rasterFormat == h.rasterFormat && n.width == h.width && n.height == h.height
    ensures n.filterFlags == h.filterFlags && n.uWrap == h.uWrap && n.vWrap == h.vWrap
    ensures n.mipmapCount as int == h.mipmapCount
    ensures n.bpp as int == 8 * BytesPerPixel(h)
  {
    NativeStruct(
      PlatformD3D9, h.filterFlags, h.vWrap, h.uWrap,
      NameField(h.diffuseName), NameField(h.alphaName),
      h.rasterFormat, WrittenFourCC(h), h.width, h.height,
      ToByte(8 * BytesPerPixel(h)), ToByte(h.mipmapCount), RasterTypeTexture,
      WrittenCompressionOrAlpha(h))
  }

  /** What the reader derives from a written structure: the compression
      (other codes come back uncompressed) and the alpha flag. */
  lemma ReadWrittenCompression(h: Header)
    ensures ReadCompression(WriteStruct(h)).0 == (if h.compression.OtherCompression? then NoCompression else h.compression)
    ensures ReadCompression(WriteStruct(h)).1 == h.alphaUsed
  {
  }
}
