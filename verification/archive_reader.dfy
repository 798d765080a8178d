/** load / readFromStream / readTextureNative of core/TXDArchive.cpp: the
    archive stream parsed from its bytes. Positions are byte offsets from where
    the stream starts; a position past the end is a seek beyond the data, after
    which every read comes up short. */
module ArchiveReader {
  import opened Wrappers
  import opened TxdTypes
  import opened LittleEndian
  import opened TextureHeader
  import opened TextureArchive
  import opened NativeStruct

  /** The exceptions loading can throw. */
  datatype LoadError =
    | MissingDictionaryHeader
    | NotADictionary
    | NativeWithoutStruct
    | TruncatedNativeStruct
    | Ps2Unsupported
    | InvalidHeader(cause: HeaderError)
    | TruncatedPalette
    | TruncatedMipmapSize
    | NegativeMipmapSize
    | TruncatedMipmapData

  /** The errors a texture native can raise. */
  predicate IsTextureError(e: LoadError) {
    e != MissingDictionaryHeader && e != NotADictionary
  }

  /** The archive after a load, and the exception it ended with, if any. */
  datatype LoadOutcome = LoadOutcome(archive: Archive, error: Option<LoadError>)

  /** How a texture's palette bytes are treated: txdedit leaves them in
      the stream (AsWritten); Corrected reads them into the palette region. */
  datatype PaletteReading = AsWritten | Corrected

  // ---------------------------------------------------------------- sections

  datatype SectionHeader = SectionHeader(id: bv32, size: u32, version: bv32)

  function Size32(b: Bytes): (n: u32)
    requires |b| == 4
    ensures n == LeValue(b)
  {
    assert Pow256(4) == 0x1_0000_0000;
    LeValue(b)
  }

  /** readSection: three little-endian words, or nothing on a short read. */
  function ReadSectionHeader(s: Bytes, pos: nat): (r: Option<SectionHeader>)
    ensures r.Some? <==> pos + 12 <= |s|
    ensures r.Some? ==> r.value == SectionHeader(Word(s[pos..pos + 4]), Size32(s[pos + 4..pos + 8]), Word(s[pos + 8..pos + 12]))
  {
    if pos + 12 <= |s| then
      Some(SectionHeader(Word(s[pos..pos + 4]), Size32(s[pos + 4..pos + 8]), Word(s[pos + 8..pos + 12])))
    else None
  }

  // ---------------------------------------------------------------- one texture

  /** The descriptor readTextureNative builds from the structure: a PS2
      platform word is refused; then the constructor (diffuse name, format
      word, compression, dimensions), the alpha flag, the alpha name, the
      filter flags, the mipmap count and the wrap modes, in that order. */
  function HeaderOfStruct(n: NativeStruct): (r: Result<Header, LoadError>)
    ensures n.platform == PlatformPS2 ==> r == Failure(Ps2Unsupported)
    ensures r.Failure? ==> r.error == Ps2Unsupported || r.error.InvalidHeader?
    ensures r.Success? <==>
              n.platform != PlatformPS2
              && NewHeader(CString(n.diffuseName), n.rasterFormat, ReadCompression(n).0, n.width, n.height).Success?
              && |CString(n.alphaName)| <= MaxNameLength
    ensures r.Success? ==>
              r.value == Header(CString(n.diffuseName), CString(n.alphaName),
                                ResolveRasterFormat(n.rasterFormat, ReadCompression(n).0), ReadCompression(n).0,
                                n.width, n.height, n.mipmapCount as u8, ReadCompression(n).1,
                                n.uWrap, n.vWrap, n.filterFlags)
    ensures r.Success? ==> PaletteBytes(n.rasterFormat) <= DataSize(r.value)
  {
    if n.platform == PlatformPS2 then Failure(Ps2Unsupported)
    else
      var (c, alpha) := ReadCompression(n);
      match NewHeader(CString(n.diffuseName), n.rasterFormat, c, n.width, n.height)
      case Failure(e) => Failure(InvalidHeader(e))
      case Success(h0) =>
        var named := SetAlphaName(SetAlphaChannelUsed(h0, alpha), CString(n.alphaName));
        if named.error.Some? then Failure(InvalidHeader(named.error.value))
        else
          var h := SetWrappingFlags(SetMipmapCount(SetFilterFlags(named.header, n.filterFlags), n.mipmapCount as u8), n.uWrap, n.vWrap);
          assert h.rasterFormat == ResolveRasterFormat(n.rasterFormat, c);
          Success(h)
  }

  /** The loop bound: the count field read as int8_t, so 128..255 read no
      level at all. */
  function LevelCount(n: NativeStruct): (k: nat)
    ensures k < 128
    ensures n.mipmapCount < 0x80 ==> k == n.mipmapCount as int
    ensures n.mipmapCount >= 0x80 ==> k == 0
  {
    if AsSigned8(n.mipmapCount) < 0 then 0 else AsSigned8(n.mipmapCount)
  }

  /** The mipmap loop: each level is an int32 size and that many bytes,
      stored at the running offset; the buffer grows (zero-filled) when a
      level does not fit. A negative size throws (the read refuses it, or
      the resize before it fails). */
  function ReadLevels(s: Bytes, pos: nat, buf: Bytes, offset: nat, count: nat): (r: Result<Bytes, LoadError>)
    requires offset <= |buf|
    ensures count == 0 ==> r == Success(buf)
    ensures r.Success? ==> |r.value| >= |buf| && r.value[..offset] == buf[..offset]
    ensures count > 0 && pos + 4 > |s| ==> r == Failure(TruncatedMipmapSize)
    ensures r.Failure? ==> r.error in {TruncatedMipmapSize, NegativeMipmapSize, TruncatedMipmapData}
    decreases count
  {
    if count == 0 then Success(buf)
    else if pos + 4 > |s| then Failure(TruncatedMipmapSize)
    else
      var size := I32At(s, pos);
      if size < 0 then Failure(NegativeMipmapSize)
      else if pos + 4 + size > |s| then Failure(TruncatedMipmapData)
      else
        var grown := if offset + size > |buf| then buf + Zeros(offset + size - |buf|) else buf;
        var filled := grown[..offset] + s[pos + 4..pos + 4 + size] + grown[offset + size..];
        assert filled[..offset] == buf[..offset];
        var r := ReadLevels(s, pos + 4 + size, filled, offset + size, count - 1);
        assert r.Success? ==> r.value[..offset] == r.value[..offset + size][..offset];
        r
  }

  /** The level records from pos, independently of any buffer: each an
      int32 size and that many bytes, their bytes concatenated in order, or
      the error the first bad record raises. */
  function LevelPayload(s: Bytes, pos: nat, count: nat): (r: Result<Bytes, LoadError>)
    ensures count == 0 ==> r == Success([])
    ensures r.Failure? ==> r.error in {TruncatedMipmapSize, NegativeMipmapSize, TruncatedMipmapData}
    decreases count
  {
    if count == 0 then Success([])
    else if pos + 4 > |s| then Failure(TruncatedMipmapSize)
    else
      var size := I32At(s, pos);
      if size < 0 then Failure(NegativeMipmapSize)
      else if pos + 4 + size > |s| then Failure(TruncatedMipmapData)
      else match LevelPayload(s, pos + 4 + size, count - 1)
        case Failure(e) => Failure(e)
        case Success(rest) => Success(s[pos + 4..pos + 4 + size] + rest)
  }

  /** buf with chunk written at offset, grown (and ending with the chunk)
      when the chunk runs past its end. */
  function Place(buf: Bytes, offset: nat, chunk: Bytes): (r: Bytes)
    requires offset <= |buf|
    ensures |r| == if offset + |chunk| <= |buf| then |buf| else offset + |chunk|
    ensures r[..offset] == buf[..offset] && r[offset..offset + |chunk|] == chunk
    ensures offset + |chunk| <= |buf| ==> r[offset + |chunk|..] == buf[offset + |chunk|..]
  {
    if offset + |chunk| <= |buf| then buf[..offset] + chunk + buf[offset + |chunk|..]
    else buf[..offset] + chunk
  }

  /** Two chunks placed one after the other are their concatenation placed. */
  lemma PlaceTwice(buf: Bytes, offset: nat, a: Bytes, b: Bytes)
    requires offset <= |buf|
    ensures Place(Place(buf, offset, a), offset + |a|, b) == Place(buf, offset, a + b)
  {
    var x := Place(Place(buf, offset, a), offset + |a|, b);
    var y := Place(buf, offset, a + b);
    assert |x| == |y|;
    forall i | 0 <= i < |x|
      ensures x[i] == y[i]
    {
      var p := Place(buf, offset, a);
      if i < offset {
        assert x[i] == x[..offset + |a|][i] == p[..offset + |a|][i] == p[..offset][i];
        assert y[i] == y[..offset][i];
      } else if i < offset + |a| {
        assert x[i] == x[..offset + |a|][i] == p[..offset + |a|][i] == p[offset..offset + |a|][i - offset];
        assert y[i] == y[offset..offset + |a + b|][i - offset];
      } else if i < offset + |a| + |b| {
        assert x[i] == x[offset + |a|..offset + |a| + |b|][i - offset - |a|];
        assert y[i] == y[offset..offset + |a + b|][i - offset];
      } else {
        assert x[i] == x[offset + |a| + |b|..][i - offset - |a| - |b|] == p[offset + |a|..][i - offset - |a|];
        assert y[i] == y[offset + |a + b|..][i - offset - |a| - |b|];
      }
    }
  }

  /** The loop's grow-then-copy step is Place. */
  lemma GrowAndCopy(buf: Bytes, offset: nat, chunk: Bytes)
    requires offset <= |buf|
    ensures var grown := if offset + |chunk| > |buf| then buf + Zeros(offset + |chunk| - |buf|) else buf;
            grown[..offset] + chunk + grown[offset + |chunk|..] == Place(buf, offset, chunk)
  {
    if offset + |chunk| > |buf| {
      var grown := buf + Zeros(offset + |chunk| - |buf|);
      assert grown[..offset] == buf[..offset];
      assert grown[offset + |chunk|..] == [];
    }
  }

  /** One well-formed record: the loop places its bytes and goes on after
      it, and the payload starts with them. */
  lemma ReadLevelsStep(s: Bytes, pos: nat, buf: Bytes, offset: nat, count: nat)
    requires offset <= |buf| && count > 0 && pos + 4 <= |s|
    requires 0 <= I32At(s, pos) && pos + 4 + I32At(s, pos) <= |s|
    ensures var next := pos + 4 + I32At(s, pos);
            var chunk := s[pos + 4..next];
            ReadLevels(s, pos, buf, offset, count) == ReadLevels(s, next, Place(buf, offset, chunk), offset + |chunk|, count - 1)
            && LevelPayload(s, pos, count)
               == match LevelPayload(s, next, count - 1)
                  case Failure(e) => Failure(e)
                  case Success(rest) => Success(chunk + rest)
  {
    GrowAndCopy(buf, offset, s[pos + 4..pos + 4 + I32At(s, pos)]);
  }

  /** Whether the loop, started at pos with buf and offset, ends as the
      records' payload says: with the same error, or with the payload
      placed at the offset. */
  predicate PlacesPayload(s: Bytes, pos: nat, buf: Bytes, offset: nat, count: nat)
    requires offset <= |buf|
  {
    var payload := LevelPayload(s, pos, count);
    && (payload.Failure? ==> ReadLevels(s, pos, buf, offset, count) == Failure(payload.error))
    && (payload.Success? ==> ReadLevels(s, pos, buf, offset, count) == Success(Place(buf, offset, payload.value)))
  }

  /** One well-formed record carries the property from the rest of the
      records over to the whole. */
  lemma PlacesPayloadStep(s: Bytes, pos: nat, buf: Bytes, offset: nat, count: nat)
    requires offset <= |buf| && count > 0 && pos + 4 <= |s|
    requires 0 <= I32At(s, pos) && pos + 4 + I32At(s, pos) <= |s|
    requires var next := pos + 4 + I32At(s, pos);
             PlacesPayload(s, next, Place(buf, offset, s[pos + 4..next]), offset + (next - pos - 4), count - 1)
    ensures PlacesPayload(s, pos, buf, offset, count)
  {
    var next := pos + 4 + I32At(s, pos);
    var chunk := s[pos + 4..next];
    assert |chunk| == next - pos - 4;
    ReadLevelsStep(s, pos, buf, offset, count);
    var rest := LevelPayload(s, next, count - 1);
    var placed := Place(buf, offset, chunk);
    assert ReadLevels(s, pos, buf, offset, count) == ReadLevels(s, next, placed, offset + |chunk|, count - 1);
    if rest.Success? {
      PlaceTwice(buf, offset, chunk, rest.value);
      assert LevelPayload(s, pos, count) == Success(chunk + rest.value);
    } else {
      assert LevelPayload(s, pos, count) == Failure(rest.error);
    }
  }

  /** The mipmap loop fails exactly when the records do, with the same
      error, and otherwise leaves the records' bytes, concatenated, at the
      running offset: level i lands at the offset plus the sizes of the
      levels before it, and the buffer ends up as long as the larger of its
      own length and the offset plus all the sizes. */
  lemma ReadLevelsPlacesPayload(s: Bytes, pos: nat, buf: Bytes, offset: nat, count: nat)
    requires offset <= |buf|
    ensures LevelPayload(s, pos, count).Failure? ==>
              ReadLevels(s, pos, buf, offset, count) == Failure(LevelPayload(s, pos, count).error)
    ensures LevelPayload(s, pos, count).Success? ==>
              ReadLevels(s, pos, buf, offset, count) == Success(Place(buf, offset, LevelPayload(s, pos, count).value))
  {
    AlwaysPlacesPayload(s, pos, buf, offset, count);
  }

  /** The induction over the records behind ReadLevelsPlacesPayload. */
  lemma {:induction false} AlwaysPlacesPayload(s: Bytes, pos: nat, buf: Bytes, offset: nat, count: nat)
    requires offset <= |buf|
    ensures PlacesPayload(s, pos, buf, offset, count)
    decreases count
  {
    if count == 0 {
      assert Place(buf, offset, []) == buf;
    } else if pos + 4 <= |s| && I32At(s, pos) >= 0 && pos + 4 + I32At(s, pos) <= |s| {
      var next := pos + 4 + I32At(s, pos);
      AlwaysPlacesPayload(s, next, Place(buf, offset, s[pos + 4..next]), offset + (next - pos - 4), count - 1);
      PlacesPayloadStep(s, pos, buf, offset, count);
    }
  }

  /** The palette read the corrected reader does before the levels: the
      palette bytes go to the start of the buffer. */
  function ReadPalette(s: Bytes, pos: nat, buf: Bytes, size: nat): (r: Result<Bytes, LoadError>)
    requires size <= |buf|
    ensures r.Success? <==> pos + size <= |s|
    ensures r.Success? ==> |r.value| == |buf| && r.value[..size] == s[pos..pos + size] && r.value[size..] == buf[size..]
    ensures r.Failure? ==> r.error == TruncatedPalette
  {
    if pos + size > |s| then Failure(TruncatedPalette)
    else Success(s[pos..pos + size] + buf[size..])
  }

  /** What readTextureNative leaves behind. */
  datatype NativeRead = NativeStop | NativeFailed(error: LoadError) | NativeLoaded(entry: Entry)

  /** readTextureNative at the start of a texture-native payload: a missing
      struct header ends the load quietly (the stream has failed); a header
      that is not a struct, a short structure, the PS2 platform, a descriptor
      error or a short level throws. The bytes start as a zero buffer of the
      descriptor's computed size and the levels go in after the palette
      region; the original dimensions are the descriptor's. */
  function ReadTextureNative(s: Bytes, start: nat, reading: PaletteReading): (r: NativeRead)
    ensures r == NativeStop <==> start + 12 > |s|
    ensures r.NativeFailed? ==> IsTextureError(r.error)
    ensures start + 12 <= |s| && Word(s[start..start + 4]) != StructId ==> r == NativeFailed(NativeWithoutStruct)
    ensures r.NativeLoaded? ==>
              start + 12 + StructSize <= |s|
              && var n := DecodeStruct(s[start + 12..start + 12 + StructSize]);
              && HeaderOfStruct(n) == Success(r.entry.header)
              && |r.entry.data| >= DataSize(r.entry.header)
              && r.entry.originalWidth == r.entry.header.width
              && r.entry.originalHeight == r.entry.header.height
              && NativeData(s, start + 12 + StructSize, n, r.entry.header, reading) == Success(r.entry.data)
    ensures start + 12 <= |s| && Word(s[start..start + 4]) == StructId && start + 12 + StructSize > |s| ==>
              r == NativeFailed(TruncatedNativeStruct)
    ensures start + 12 + StructSize <= |s| && Word(s[start..start + 4]) == StructId ==>
              var n := DecodeStruct(s[start + 12..start + 12 + StructSize]);
              && (HeaderOfStruct(n).Failure? ==> r == NativeFailed(HeaderOfStruct(n).error))
              && (HeaderOfStruct(n).Success? ==>
                    var h := HeaderOfStruct(n).value;
                    var d := NativeData(s, start + 12 + StructSize, n, h, reading);
                    (d.Failure? ==> r == NativeFailed(d.error)) && (d.Success? ==> r.NativeLoaded? && r.entry.header == h))
  {
    match ReadSectionHeader(s, start)
    case None => NativeStop
    case Some(sh) =>
      if sh.id != StructId then NativeFailed(NativeWithoutStruct)
      else if start + 12 + StructSize > |s| then NativeFailed(TruncatedNativeStruct)
      else
        var n := DecodeStruct(s[start + 12..start + 12 + StructSize]);
        match HeaderOfStruct(n)
        case Failure(e) => NativeFailed(e)
        case Success(h) =>
          match NativeData(s, start + 12 + StructSize, n, h, reading)
          case Failure(e) => NativeFailed(e)
          case Success(data) => NativeLoaded(Entry(h, data, h.width, h.height))
  }

  /** The bytes after the structure, read for the descriptor h decoded
      from the structure n: n's palette size and level count, h's data
      size. */
  function NativeData(s: Bytes, at: nat, n: NativeStruct, h: Header, reading: PaletteReading): Result<Bytes, LoadError>
    requires HeaderOfStruct(n) == Success(h)
  {
    ReadTextureData(s, at, DataSize(h), PaletteBytes(n.rasterFormat), LevelCount(n), reading)
  }

  /** The bytes after the structure: a zero buffer of the computed size, the
      palette (corrected reading only) and the levels after the palette
      region. */
  function ReadTextureData(s: Bytes, at: nat, size: nat, pal: nat, count: nat, reading: PaletteReading): (r: Result<Bytes, LoadError>)
    requires pal <= size
    ensures r.Success? ==> |r.value| >= size
    ensures r.Failure? ==> IsTextureError(r.error)
    ensures reading == AsWritten ==> r == ReadLevels(s, at, Zeros(size), pal, count)
  {
    var initial := Zeros(size);
    if reading == Corrected then
      match ReadPalette(s, at, initial, pal)
      case Failure(e) => Failure(e)
      case Success(buf) => ReadLevels(s, at + pal, buf, pal, count)
    else ReadLevels(s, at, initial, pal, count)
  }

  // ---------------------------------------------------------------- the dictionary

  /** One pass of the child loop of readFromStream at pos. */
  datatype ChildStep =
    | EndOfChildren
    | ChildFailed(error: LoadError)
    | NextChild(next: nat, loaded: Option<Entry>)

  /** A short header ends the loop; a struct child needs its four bytes and
      is skipped; a texture native is read (a quiet stop inside it ends the
      loop, an exception ends the load); anything else is skipped by its size.
      Every child moves the position past at least its 12-byte header. */
  function ChildAt(s: Bytes, pos: nat, reading: PaletteReading): (r: ChildStep)
    ensures r == EndOfChildren <==>
              pos + 12 > |s|
              || (Word(s[pos..pos + 4]) == StructId && pos + 16 > |s|)
              || (Word(s[pos..pos + 4]) == TextureNativeId && ReadTextureNative(s, pos + 12, reading).NativeStop?)
    ensures r.NextChild? ==> r.next == pos + 12 + Size32(s[pos + 4..pos + 8])
    ensures r.NextChild? && r.loaded.Some? ==>
              Word(s[pos..pos + 4]) == TextureNativeId && ReadTextureNative(s, pos + 12, reading) == NativeLoaded(r.loaded.value)
    ensures r.NextChild? && Word(s[pos..pos + 4]) == TextureNativeId ==> r.loaded.Some?
    ensures r.ChildFailed? ==>
              Word(s[pos..pos + 4]) == TextureNativeId && ReadTextureNative(s, pos + 12, reading) == NativeFailed(r.error)
  {
    match ReadSectionHeader(s, pos)
    case None => EndOfChildren
    case Some(child) =>
      var childEnd := pos + 12 + child.size;
      if child.id == StructId then
        if pos + 16 > |s| then EndOfChildren else NextChild(childEnd, None)
      else if child.id == TextureNativeId then
        match ReadTextureNative(s, pos + 12, reading)
        case NativeStop => EndOfChildren
        case NativeFailed(e) => ChildFailed(e)
        case NativeLoaded(entry) => NextChild(childEnd, Some(entry))
      else NextChild(childEnd, None)
  }

  /** The child loop, from pos up to the end of the dictionary section. */
  function ReadChildren(s: Bytes, pos: nat, end: nat, acc: Archive, reading: PaletteReading): (r: LoadOutcome)
    ensures r.archive.gameVersion == acc.gameVersion
    ensures |r.archive.textures| >= |acc.textures| && r.archive.textures[..|acc.textures|] == acc.textures
    ensures r.error.Some? ==> IsTextureError(r.error.value)
    decreases if pos < end then end - pos else 0
  {
    if pos >= end then LoadOutcome(acc, None)
    else match ChildAt(s, pos, reading)
      case EndOfChildren => LoadOutcome(acc, None)
      case ChildFailed(e) => LoadOutcome(acc, Some(e))
      case NextChild(next, loaded) =>
        var acc' := if loaded.Some? then Append(acc, loaded.value) else acc;
        assert acc'.textures[..|acc.textures|] == acc.textures && acc'.gameVersion == acc.gameVersion;
        var r := ReadChildren(s, next, end, acc', reading);
        assert r.archive.textures[..|acc.textures|] == r.archive.textures[..|acc'.textures|][..|acc.textures|];
        r
  }

  /** The loop keeps the index in step with the textures. */
  lemma {:induction false} ReadChildrenConsistent(s: Bytes, pos: nat, end: nat, acc: Archive, reading: PaletteReading)
    requires Consistent(acc)
    ensures Consistent(ReadChildren(s, pos, end, acc, reading).archive)
    decreases if pos < end then end - pos else 0
  {
    if pos < end {
      match ChildAt(s, pos, reading)
      case EndOfChildren =>
      case ChildFailed(e) =>
      case NextChild(next, loaded) =>
        var acc' := if loaded.Some? then Append(acc, loaded.value) else acc;
        ReadChildrenConsistent(s, next, end, acc', reading);
    }
  }

  /** load(stream): textures and index are cleared first; a missing or
      foreign dictionary header throws with the game version untouched;
      otherwise the version is detected from the header and the children
      are read. Textures read before an exception stay loaded. */
  function LoadWith(a: Archive, s: Bytes, reading: PaletteReading): (r: LoadOutcome)
    ensures Consistent(r.archive)
    ensures r.error == Some(MissingDictionaryHeader) <==> |s| < 12
    ensures |s| < 12 ==> r.archive == a.(textures := [], nameIndex := map[])
    ensures |s| >= 12 && Word(s[0..4]) != DictionaryId ==>
              r == LoadOutcome(a.(textures := [], nameIndex := map[]), Some(NotADictionary))
    ensures |s| >= 12 && Word(s[0..4]) == DictionaryId ==>
              r.archive.gameVersion == DetectGameVersion(Word(s[8..12]))
              && r.error != Some(MissingDictionaryHeader) && r.error != Some(NotADictionary)
    ensures |s| >= 12 && Word(s[0..4]) == DictionaryId ==>
              r == ReadChildren(s, 12, 12 + Size32(s[4..8]),
                                Archive([], map[], DetectGameVersion(Word(s[8..12]))), reading)
  {
    var cleared := a.(textures := [], nameIndex := map[]);
    match ReadSectionHeader(s, 0)
    case None => LoadOutcome(cleared, Some(MissingDictionaryHeader))
    case Some(dict) =>
      if dict.id != DictionaryId then LoadOutcome(cleared, Some(NotADictionary))
      else
        var acc := cleared.(gameVersion := DetectGameVersion(dict.version));
        ReadChildrenConsistent(s, 12, 12 + dict.size, acc, reading);
        ReadChildren(s, 12, 12 + dict.size, acc, reading)
  }

  /** load as txdedit does it: palette bytes left in the stream. */
  function Load(a: Archive, s: Bytes): (r: LoadOutcome)
    ensures r == LoadWith(a, s, AsWritten) && Consistent(r.archive)
  {
    LoadWith(a, s, AsWritten)
  }

  /** load with the palette bytes read into the palette region. */
  function LoadCorrected(a: Archive, s: Bytes): (r: LoadOutcome)
    ensures r == LoadWith(a, s, Corrected) && Consistent(r.archive)
  {
    LoadWith(a, s, Corrected)
  }
}
