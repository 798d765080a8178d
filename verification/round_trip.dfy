/** Saving an archive and loading the bytes back: what the reader makes of
    every section, struct and level the writer puts out. */
module ArchiveRoundTrip {
  import opened Wrappers
  import opened TxdTypes
  import opened LittleEndian
  import opened TextureHeader
  import opened HeaderProperties
  import opened TextureArchive
  import opened NativeStruct
  import opened ArchiveReader
  import opened ArchiveWriter

  // ---------------------------------------------------------------- sections

  /** Bytes inside a window of s read like the same bytes of the window. */
  lemma Window(s: Bytes, pos: nat, t: Bytes, a: nat, b: nat)
    requires pos + |t| <= |s| && s[pos..pos + |t|] == t
    requires a <= b <= |t|
    ensures s[pos + a..pos + b] == t[a..b]
  {
    forall i | 0 <= i < b - a
      ensures s[pos + a..pos + b][i] == t[a..b][i]
    {
      assert s[pos + a + i] == s[pos..pos + |t|][a + i];
    }
  }

  /** A section header the writer put out reads back as written. */
  lemma ReadWrittenSectionHeader(s: Bytes, pos: nat, id: bv32, size: nat, version: bv32)
    requires size < 0x1_0000_0000
    requires pos + 12 <= |s| && s[pos..pos + 12] == SectionHeaderBytes(id, size, version)
    ensures ReadSectionHeader(s, pos) == Some(SectionHeader(id, size, version))
  {
    var b := SectionHeaderBytes(id, size, version);
    Window(s, pos, b, 0, 4);
    Window(s, pos, b, 4, 8);
    Window(s, pos, b, 8, 12);
    WordRoundTrip4(id, s[pos..pos + 4]);
    WordRoundTrip4(version, s[pos + 8..pos + 12]);
  }

  // ---------------------------------------------------------------- the descriptor

  /** The descriptor the reader builds from the structure the writer filled
      is the descriptor written. */
  lemma HeaderRoundTrip(h: Header)
    requires Valid(h) && !h.compression.OtherCompression?
    requires NulFree(h.diffuseName) && NulFree(h.alphaName)
    ensures HeaderOfStruct(WriteStruct(h)) == Success(h)
  {
    var n := WriteStruct(h);
    ReadWrittenCompression(h);
    NameFieldRoundTrip(h.diffuseName);
    NameFieldRoundTrip(h.alphaName);
    assert ReadCompression(n) == (h.compression, h.alphaUsed);
    assert CString(n.diffuseName) == h.diffuseName && CString(n.alphaName) == h.alphaName;
    assert ResolveRasterFormat(n.rasterFormat, h.compression) == h.rasterFormat;
  }

  // ---------------------------------------------------------------- sequences

  /** A suffix of s that is a concatenation splits s at the same place. */
  lemma SuffixParts(s: Bytes, pos: nat, a: Bytes, b: Bytes)
    requires pos <= |s| && s[pos..] == a + b
    ensures |s| == pos + |a| + |b| && s[pos..pos + |a|] == a && s[pos + |a|..] == b
  {
    assert s[pos..pos + |a|] == s[pos..][..|a|];
    assert s[pos + |a|..] == s[pos..][|a|..];
  }

  // ---------------------------------------------------------------- levels

  /** A size field the writer filled with a size the int32 field holds
      reads back as that size. */
  lemma SizeFieldReads(s: Bytes, pos: nat, size: nat)
    requires size < 0x8000_0000 && pos + 4 <= |s| && s[pos..pos + 4] == U32Bytes(size)
    ensures I32At(s, pos) == size
  {
    assert U32At(s, pos) == size;
  }

  /** The sizes of the levels from `level` up to the count, in order. */
  function Sizes(h: Header, level: nat): (r: seq<nat>)
    ensures |r| == if level >= h.mipmapCount then 0 else h.mipmapCount - level
    decreases h.mipmapCount - level
  {
    if level >= h.mipmapCount then [] else [MipmapDataSize(h, level)] + Sizes(h, level + 1)
  }

  function Sum(sizes: seq<nat>): nat {
    if |sizes| == 0 then 0 else sizes[0] + Sum(sizes[1..])
  }

  /** The bytes the levels from `level` up to the count take. */
  function SizeFrom(h: Header, level: nat): nat {
    Sum(Sizes(h, level))
  }

  /** The first size split off. */
  lemma SizesStep(h: Header, level: nat)
    requires level < h.mipmapCount
    ensures Sizes(h, level)[0] == MipmapDataSize(h, level) && Sizes(h, level)[1..] == Sizes(h, level + 1)
    ensures SizeFrom(h, level) == MipmapDataSize(h, level) + SizeFrom(h, level + 1)
  {
    assert ([MipmapDataSize(h, level)] + Sizes(h, level + 1))[1..] == Sizes(h, level + 1);
  }

  /** The levels before `level` and those from it make up all the levels. */
  lemma {:induction false} SizeFromRest(h: Header, level: nat)
    requires level <= h.mipmapCount
    ensures MipmapsSize(h, level) + SizeFrom(h, level) == MipmapsSize(h, h.mipmapCount)
    decreases h.mipmapCount - level
  {
    if level < h.mipmapCount {
      SizesStep(h, level);
      SizeFromRest(h, level + 1);
    } else {
      assert Sizes(h, level) == [];
    }
  }

  /** Every size holds in the int32 field. */
  predicate Fit(sizes: seq<nat>) {
    forall i :: 0 <= i < |sizes| ==> sizes[i] < 0x8000_0000
  }

  /** Every level from `level` up to the count has a size the int32 field
      holds. */
  predicate SizesFitFrom(h: Header, level: nat) {
    Fit(Sizes(h, level))
  }

  lemma {:induction false} SizesFit(h: Header, level: nat)
    requires forall k :: level <= k < h.mipmapCount ==> MipmapDataSize(h, k) < 0x8000_0000
    ensures SizesFitFrom(h, level)
    decreases h.mipmapCount - level
  {
    if level < h.mipmapCount {
      SizesStep(h, level);
      SizesFit(h, level + 1);
      var sizes := Sizes(h, level);
      forall i | 0 <= i < |sizes|
        ensures sizes[i] < 0x8000_0000
      {
        if i > 0 {
          assert sizes[i] == sizes[1..][i - 1];
        }
      }
    }
  }

  /** Level records: each chunk behind its length as a 32-bit size. */
  function Records(chunks: seq<Bytes>): Bytes {
    if |chunks| == 0 then [] else U32Bytes(|chunks[0]|) + chunks[0] + Records(chunks[1..])
  }

  function Concat(chunks: seq<Bytes>): Bytes {
    if |chunks| == 0 then [] else chunks[0] + Concat(chunks[1..])
  }

  lemma RecordsCons(c: Bytes, cs: seq<Bytes>)
    ensures Records([c] + cs) == U32Bytes(|c|) + c + Records(cs)
  {
    assert ([c] + cs)[1..] == cs;
  }

  lemma ConcatCons(c: Bytes, cs: seq<Bytes>)
    ensures Concat([c] + cs) == c + Concat(cs)
  {
    assert ([c] + cs)[1..] == cs;
  }

  predicate ChunksFit(chunks: seq<Bytes>) {
    forall i :: 0 <= i < |chunks| ==> |chunks[i]| < 0x8000_0000
  }

  /** A written level record, then anything: the record's bytes head the
      payload from there on. */
  lemma RecordThenRest(s: Bytes, pos: nat, chunk: Bytes, rest: Bytes, count: nat, later: Bytes)
    requires count > 0 && |chunk| < 0x8000_0000
    requires pos <= |s| && s[pos..] == U32Bytes(|chunk|) + (chunk + rest)
    requires pos + 4 + |chunk| <= |s| && LevelPayload(s, pos + 4 + |chunk|, count - 1) == Success(later)
    ensures LevelPayload(s, pos, count) == Success(chunk + later)
  {
    SuffixParts(s, pos, U32Bytes(|chunk|), chunk + rest);
    SizeFieldReads(s, pos, |chunk|);
    SuffixParts(s, pos + 4, chunk, rest);
  }

  /** The first record split off. */
  lemma FirstRecord(chunks: seq<Bytes>, tail: Bytes)
    requires |chunks| > 0
    ensures Records(chunks) + tail == U32Bytes(|chunks[0]|) + (chunks[0] + (Records(chunks[1..]) + tail))
  {
    Associate(U32Bytes(|chunks[0]|), chunks[0], Records(chunks[1..]), tail);
  }

  lemma Associate(a: Bytes, b: Bytes, c: Bytes, t: Bytes)
    ensures a + b + c + t == a + (b + (c + t))
  {
  }

  lemma ChunksFitRest(chunks: seq<Bytes>)
    requires |chunks| > 0 && ChunksFit(chunks)
    ensures |chunks[0]| < 0x8000_0000 && ChunksFit(chunks[1..])
  {
    forall i | 0 <= i < |chunks[1..]|
      ensures |chunks[1..][i]| < 0x8000_0000
    {
      assert chunks[1..][i] == chunks[i + 1];
    }
  }

  /** Records of chunks whose lengths fit the int32 field read back as the
      chunks concatenated. */
  lemma {:induction false} RecordsPayload(s: Bytes, pos: nat, chunks: seq<Bytes>, tail: Bytes)
    requires ChunksFit(chunks)
    requires pos <= |s| && s[pos..] == Records(chunks) + tail
    ensures LevelPayload(s, pos, |chunks|) == Success(Concat(chunks))
    decreases |chunks|
  {
    if |chunks| > 0 {
      var c := chunks[0];
      var rest := Records(chunks[1..]) + tail;
      FirstRecord(chunks, tail);
      ChunksFitRest(chunks);
      SuffixParts(s, pos, U32Bytes(|c|), c + rest);
      SuffixParts(s, pos + 4, c, rest);
      RecordsPayload(s, pos + 4 + |c|, chunks[1..], tail);
      RecordThenRest(s, pos, c, rest, |chunks|, Concat(chunks[1..]));
    }
  }

  /** The writer's level output over a list of sizes: each size, then
      that many bytes from the running offset when the buffer holds them,
      else the bare size. */
  function Written(sizes: seq<nat>, data: Bytes, offset: nat): Bytes {
    if |sizes| == 0 then []
    else if offset + sizes[0] <= |data| then
      U32Bytes(sizes[0]) + data[offset..offset + sizes[0]] + Written(sizes[1..], data, offset + sizes[0])
    else U32Bytes(sizes[0]) + Written(sizes[1..], data, offset)
  }

  /** The levels the writer emits from `level` on are its output over
      those levels' sizes. */
  lemma {:induction false} LevelsOutWritten(h: Header, data: Bytes, offset: nat, level: nat)
    ensures LevelsOut(h, data, offset, level) == Written(Sizes(h, level), data, offset)
    decreases h.mipmapCount - level
  {
    if level < h.mipmapCount {
      var size := MipmapDataSize(h, level);
      if offset + size <= |data| {
        LevelsOutWritten(h, data, offset + size, level + 1);
        StoredLevelWritten(h, data, offset, level);
      } else {
        LevelsOutWritten(h, data, offset, level + 1);
        MissingLevelWritten(h, data, offset, level);
      }
    } else {
      assert Sizes(h, level) == [];
    }
  }

  /** A level the buffer holds: its size and bytes head both outputs. */
  lemma StoredLevelWritten(h: Header, data: Bytes, offset: nat, level: nat)
    requires level < h.mipmapCount && offset + MipmapDataSize(h, level) <= |data|
    requires var next := offset + MipmapDataSize(h, level);
             LevelsOut(h, data, next, level + 1) == Written(Sizes(h, level + 1), data, next)
    ensures LevelsOut(h, data, offset, level) == Written(Sizes(h, level), data, offset)
  {
    SizesStep(h, level);
    LevelsOutStored(h, data, offset, level);
    WrittenStored(Sizes(h, level), data, offset);
  }

  /** A level the buffer does not hold: a bare size heads both outputs. */
  lemma MissingLevelWritten(h: Header, data: Bytes, offset: nat, level: nat)
    requires level < h.mipmapCount && offset + MipmapDataSize(h, level) > |data|
    requires LevelsOut(h, data, offset, level + 1) == Written(Sizes(h, level + 1), data, offset)
    ensures LevelsOut(h, data, offset, level) == Written(Sizes(h, level), data, offset)
  {
    SizesStep(h, level);
    LevelsOutMissing(h, data, offset, level);
    WrittenMissing(Sizes(h, level), data, offset);
  }

  lemma LevelsOutStored(h: Header, data: Bytes, offset: nat, level: nat)
    requires level < h.mipmapCount && offset + MipmapDataSize(h, level) <= |data|
    ensures var size := MipmapDataSize(h, level);
            LevelsOut(h, data, offset, level)
            == U32Bytes(size) + data[offset..offset + size] + LevelsOut(h, data, offset + size, level + 1)
  {
  }

  lemma LevelsOutMissing(h: Header, data: Bytes, offset: nat, level: nat)
    requires level < h.mipmapCount && offset + MipmapDataSize(h, level) > |data|
    ensures LevelsOut(h, data, offset, level) == U32Bytes(MipmapDataSize(h, level)) + LevelsOut(h, data, offset, level + 1)
  {
  }

  lemma WrittenStored(sizes: seq<nat>, data: Bytes, offset: nat)
    requires |sizes| > 0 && offset + sizes[0] <= |data|
    ensures Written(sizes, data, offset)
            == U32Bytes(sizes[0]) + data[offset..offset + sizes[0]] + Written(sizes[1..], data, offset + sizes[0])
  {
  }

  lemma WrittenMissing(sizes: seq<nat>, data: Bytes, offset: nat)
    requires |sizes| > 0 && offset + sizes[0] > |data|
    ensures Written(sizes, data, offset) == U32Bytes(sizes[0]) + Written(sizes[1..], data, offset)
  {
  }

  /** The chunks of the buffer the sizes take, from the offset. */
  function Chunks(sizes: seq<nat>, data: Bytes, offset: nat): (c: seq<Bytes>)
    requires offset + Sum(sizes) <= |data|
    ensures |c| == |sizes|
  {
    if |sizes| == 0 then []
    else [data[offset..offset + sizes[0]]] + Chunks(sizes[1..], data, offset + sizes[0])
  }

  /** When the buffer holds every level, the writer's output is the
      records of the chunks. */
  lemma {:induction false} WrittenRecords(sizes: seq<nat>, data: Bytes, offset: nat)
    requires offset + Sum(sizes) <= |data|
    ensures Written(sizes, data, offset) == Records(Chunks(sizes, data, offset))
    decreases |sizes|
  {
    if |sizes| > 0 {
      var chunk := data[offset..offset + sizes[0]];
      var rest := Chunks(sizes[1..], data, offset + sizes[0]);
      WrittenRecords(sizes[1..], data, offset + sizes[0]);
      RecordsCons(chunk, rest);
    }
  }

  /** The chunks together are the buffer's bytes over the sizes. */
  lemma {:induction false} ChunksConcat(sizes: seq<nat>, data: Bytes, offset: nat)
    requires offset + Sum(sizes) <= |data|
    ensures Concat(Chunks(sizes, data, offset)) == data[offset..offset + Sum(sizes)]
    decreases |sizes|
  {
    if |sizes| > 0 {
      var size := sizes[0];
      var rest := Chunks(sizes[1..], data, offset + size);
      ChunksConcat(sizes[1..], data, offset + size);
      ConcatCons(data[offset..offset + size], rest);
      assert data[offset..offset + Sum(sizes)]
             == data[offset..offset + size] + data[offset + size..offset + size + Sum(sizes[1..])];
    } else {
      assert data[offset..offset] == [];
    }
  }

  /** Sizes that fit the field give chunks that fit it. */
  lemma {:induction false} ChunksFitField(sizes: seq<nat>, data: Bytes, offset: nat)
    requires offset + Sum(sizes) <= |data| && Fit(sizes)
    ensures ChunksFit(Chunks(sizes, data, offset))
    decreases |sizes|
  {
    if |sizes| > 0 {
      var c := Chunks(sizes, data, offset);
      assert Fit(sizes[1..]) by {
        forall i | 0 <= i < |sizes[1..]|
          ensures sizes[1..][i] < 0x8000_0000
        {
          assert sizes[1..][i] == sizes[i + 1];
        }
      }
      ChunksFitField(sizes[1..], data, offset + sizes[0]);
      assert c[1..] == Chunks(sizes[1..], data, offset + sizes[0]);
      forall i | 0 <= i < |c|
        ensures |c[i]| < 0x8000_0000
      {
        if i > 0 {
          assert c[i] == c[1..][i - 1];
        }
      }
    }
  }

  /** The writer's output over sizes the buffer holds and the field fits
      reads back as records whose bytes are the buffer's over those sizes. */
  lemma WrittenPayload(s: Bytes, pos: nat, sizes: seq<nat>, data: Bytes, offset: nat, tail: Bytes)
    requires offset + Sum(sizes) <= |data| && Fit(sizes)
    requires pos <= |s| && s[pos..] == Written(sizes, data, offset) + tail
    ensures LevelPayload(s, pos, |sizes|) == Success(data[offset..offset + Sum(sizes)])
  {
    WrittenRecords(sizes, data, offset);
    ChunksConcat(sizes, data, offset);
    ChunksFitField(sizes, data, offset);
    RecordsPayload(s, pos, Chunks(sizes, data, offset), tail);
  }

  /** The levels the writer emits from `level` on, when the buffer holds
      them all and every size fits the int32 field, read back as records
      whose bytes are the buffer's from the offset over those levels. */
  lemma WrittenLevelsPayload(s: Bytes, pos: nat, h: Header, data: Bytes, offset: nat, level: nat, tail: Bytes)
    requires level <= h.mipmapCount && offset + SizeFrom(h, level) <= |data| && SizesFitFrom(h, level)
    requires pos <= |s| && s[pos..] == LevelsOut(h, data, offset, level) + tail
    ensures LevelPayload(s, pos, h.mipmapCount - level) == Success(data[offset..offset + SizeFrom(h, level)])
  {
    LevelsOutWritten(h, data, offset, level);
    WrittenPayload(s, pos, Sizes(h, level), data, offset, tail);
  }

  // ---------------------------------------------------------------- the palette

  /** The value of four bytes, written out. */
  lemma LeValue4(t: Bytes)
    requires |t| == 4
    ensures LeValue(t) == t[0] as int + 0x100 * t[1] as int + 0x1_0000 * t[2] as int + 0x100_0000 * t[3] as int
  {
    assert t[3..][1..] == [];
    assert t[2..][1..] == t[3..];
    assert t[1..][1..] == t[2..];
    var v3 := LeValue(t[3..]);
    var v2 := LeValue(t[2..]);
    var v1 := LeValue(t[1..]);
    assert v3 == t[3] as int;
    assert v2 == t[2] as int + 0x100 * v3;
    assert v1 == t[1] as int + 0x100 * v2;
  }

  /** A 32-bit field reads as a negative int32 exactly when its last
      (most significant) byte has the top bit set. */
  lemma NegativeField(s: Bytes, i: nat)
    requires i + 4 <= |s|
    ensures I32At(s, i) < 0 <==> s[i + 3] >= 0x80
  {
    var t := s[i..i + 4];
    LeValue4(t);
    assert U32At(s, i) == LeValue(t);
    assert s[i + 3] == t[3];
  }

  /** Read as the program does, the first four palette bytes are taken for
      the first level's size: a palette whose fourth byte (the first
      colour's alpha) is 0x80 or more makes the texture fail to load. */
  lemma OpaquePaletteFailsAsWritten(s: Bytes, at: nat, pal: nat, size: nat, count: nat)
    requires 4 <= pal <= size && at + 4 <= |s| && s[at + 3] >= 0x80 && count > 0
    ensures ReadTextureData(s, at, size, pal, count, AsWritten) == Failure(NegativeMipmapSize)
  {
    NegativeField(s, at);
  }

  /** The palette step copies the palette into the start of the buffer
      and the levels are read from the bytes after it. */
  lemma CorrectedPalette(s: Bytes, at: nat, palette: Bytes, size: nat, count: nat)
    requires at + |palette| <= |s| && s[at..at + |palette|] == palette && |palette| <= size
    ensures ReadTextureData(s, at, size, |palette|, count, Corrected)
            == ReadLevels(s, at + |palette|, palette + Zeros(size - |palette|), |palette|, count)
  {
    var p := |palette|;
    var buf := ReadPalette(s, at, Zeros(size), p).value;
    assert buf == palette + Zeros(size - p) by {
      assert buf[..p] == palette;
      assert buf[p..] == Zeros(size - p);
      assert buf == buf[..p] + buf[p..];
    }
  }

  /** Without a palette the two readings are the same. */
  lemma ReadingsAgreeWithoutPalette(s: Bytes, at: nat, size: nat, count: nat)
    requires at <= |s|
    ensures ReadTextureData(s, at, size, 0, count, AsWritten) == ReadTextureData(s, at, size, 0, count, Corrected)
  {
    CorrectedPalette(s, at, [], size, count);
  }

  // ---------------------------------------------------------------- the game version

  /** The words packGameVersion writes are never recognised on load. */
  lemma PackGameVersionNeverDetected(v: GameVersion)
    ensures DetectGameVersion(PackGameVersion(v)) == Unknown
  {
    var w := PackGameVersion(v);
    assert w & 0xFFFF != 0xFFFF by {
      assert w == 0x0311 || w == 0x0343 || w == 0x0C18;
    }
  }

  /** The corrected pack is detected as the version packed, an unknown
      version as San Andreas. */
  lemma PackGameVersionCorrectedDetected(v: GameVersion)
    ensures DetectGameVersion(PackGameVersionCorrected(v)) == if v == Unknown then GtaSA else v
  {
  }

  /** A saved archive loads back with the version its dictionary header
      carries, and is never refused as missing or foreign. */
  lemma SavedVersionLoads(a: Archive, version: bv32, prior: Archive, reading: PaletteReading)
    ensures var r := LoadWith(prior, SaveWith(a, version), reading);
            r.archive.gameVersion == DetectGameVersion(version)
            && r.error != Some(MissingDictionaryHeader) && r.error != Some(NotADictionary)
  {
    var b := SaveWith(a, version);
    var h := SectionHeaderBytes(DictionaryId, |DictionaryBody(version, a)|, version);
    assert b[0..4] == h[0..4] == WordBytes(DictionaryId);
    WordRoundTrip4(DictionaryId, b[0..4]);
    WordRoundTrip4(version, b[8..12]);
  }

  /** Saved as txdedit does it, every archive loads back with an unknown
      game version. */
  lemma SaveLosesVersion(a: Archive, prior: Archive, reading: PaletteReading)
    ensures LoadWith(prior, Save(a), reading).archive.gameVersion == Unknown
  {
    SavedVersionLoads(a, PackGameVersion(a.gameVersion), prior, reading);
    PackGameVersionNeverDetected(a.gameVersion);
  }

  /** Saved with the corrected pack, the game version survives the round
      trip; an unknown one comes back as San Andreas. */
  lemma SaveCorrectedKeepsVersion(a: Archive, prior: Archive, reading: PaletteReading)
    ensures LoadWith(prior, SaveCorrected(a), reading).archive.gameVersion
            == if a.gameVersion == Unknown then GtaSA else a.gameVersion
  {
    SavedVersionLoads(a, PackGameVersionCorrected(a.gameVersion), prior, reading);
    PackGameVersionCorrectedDetected(a.gameVersion);
  }

  // ---------------------------------------------------------------- one texture

  /** The struct section at the head of a texture native's payload. */
  function NativePrefix(version: bv32, e: Entry): (b: Bytes)
    ensures |b| == 12 + StructSize
  {
    SectionHeaderBytes(StructId, StructSize, version) + EncodeStruct(WriteStruct(e.header))
  }

  /** The parts of a texture native's payload. */
  lemma NativeBodyParts(version: bv32, e: Entry)
    ensures NativeBody(version, e)
            == NativePrefix(version, e) + PaletteOut(e) + LevelsOut(e.header, e.data, |PaletteOut(e)|, 0)
               + SectionHeaderBytes(ExtensionId, 0, version)
  {
  }

  /** Six concatenated parts, regrouped from the right. */
  lemma Assoc3(a: Bytes, b: Bytes, c: Bytes)
    ensures a + b + c == a + (b + c)
  {
  }

  lemma Regroup(a: Bytes, b: Bytes, c: Bytes, d: Bytes, f: Bytes, t: Bytes)
    ensures a + b + c + d + f + t == a + (b + (c + d + (f + t)))
  {
  }

  /** A descriptor the record carries unchanged, with a level count the
      int8 loop bound reads as itself. */
  predicate Describable(h: Header) {
    Valid(h) && !h.compression.OtherCompression? && NulFree(h.diffuseName) && NulFree(h.alphaName)
    && h.mipmapCount < 0x80
  }

  /** A texture the loader can restore: its descriptor is carried, its
      buffer holds the data size, and every level size fits the int32
      field. */
  predicate Reloadable(e: Entry) {
    Describable(e.header) && DataSize(e.header) <= |e.data|
    && forall k :: 0 <= k < e.header.mipmapCount ==> MipmapDataSize(e.header, k) < 0x8000_0000
  }

  /** The bytes the writer takes from the buffer: the palette, then the
      levels. */
  function StoredBytes(h: Header): (m: nat)
    ensures m <= DataSize(h)
  {
    PaletteBytes(h.rasterFormat) + MipmapsSize(h, h.mipmapCount)
  }

  /** The stored bytes are all of the data size exactly when the format
      does not carry both palette flags (computeDataSize then counts both
      palettes, the writer only one). */
  lemma StoredBytesWhole(h: Header)
    ensures StoredBytes(h) == DataSize(h) <==> !(HasPal4(h.rasterFormat) && HasPal8(h.rasterFormat))
  {
  }

  /** The texture the loader makes of what the writer emitted: the stored
      bytes, then zeros up to the data size; the original size is the
      descriptor's. */
  function Reloaded(e: Entry): (r: Entry)
    requires Reloadable(e)
    ensures r.header == e.header && |r.data| == DataSize(e.header)
    ensures r.originalWidth == e.header.width && r.originalHeight == e.header.height
    ensures r.data[..StoredBytes(e.header)] == e.data[..StoredBytes(e.header)]
    ensures forall i :: StoredBytes(e.header) <= i < |r.data| ==> r.data[i] == 0
  {
    var m := StoredBytes(e.header);
    var data := e.data[..m] + Zeros(DataSize(e.header) - m);
    assert data[..m] == e.data[..m];
    Entry(e.header, data, e.header.width, e.header.height)
  }

  /** A buffer of exactly the data size, in a format without both palette
      flags, comes back unchanged. */
  lemma ReloadedKeepsData(e: Entry)
    requires Reloadable(e) && |e.data| == DataSize(e.header)
    requires !(HasPal4(e.header.rasterFormat) && HasPal8(e.header.rasterFormat))
    ensures Reloaded(e).data == e.data
  {
    StoredBytesWhole(e.header);
  }

  /** A 12-byte header, an 88-byte record and the rest, as a suffix of s. */
  lemma StructLayout(s: Bytes, start: nat, head: Bytes, st: Bytes, after: Bytes)
    requires |head| == 12 && |st| == StructSize
    requires start <= |s| && s[start..] == head + (st + after)
    ensures start + 12 + StructSize <= |s|
    ensures s[start..start + 4] == head[0..4] && s[start + 12..start + 12 + StructSize] == st
    ensures s[start + 12 + StructSize..] == after
  {
    SuffixParts(s, start, head, st + after);
    SuffixParts(s, start + 12, st, after);
    assert s[start..start + 4] == s[start..start + 12][0..4];
  }

  /** A texture native's payload and what follows it, regrouped. */
  lemma NativeBodyAndTail(version: bv32, e: Entry, tail: Bytes)
    ensures NativeBody(version, e) + tail
            == SectionHeaderBytes(StructId, StructSize, version)
               + (EncodeStruct(WriteStruct(e.header))
                  + (PaletteOut(e) + LevelsOut(e.header, e.data, |PaletteOut(e)|, 0)
                     + (SectionHeaderBytes(ExtensionId, 0, version) + tail)))
  {
    NativeBodyParts(version, e);
    Regroup(SectionHeaderBytes(StructId, StructSize, version), EncodeStruct(WriteStruct(e.header)),
            PaletteOut(e), LevelsOut(e.header, e.data, |PaletteOut(e)|, 0),
            SectionHeaderBytes(ExtensionId, 0, version), tail);
  }

  /** A texture native's payload the writer emitted, wherever it sits:
      its struct header, its 88-byte record holding the written descriptor,
      and after it the palette and level records. */
  lemma WrittenStructReads(s: Bytes, start: nat, version: bv32, e: Entry, tail: Bytes)
    requires start <= |s| && s[start..] == NativeBody(version, e) + tail
    ensures start + 12 + StructSize <= |s| && Word(s[start..start + 4]) == StructId
    ensures DecodeStruct(s[start + 12..start + 12 + StructSize]) == WriteStruct(e.header)
    ensures s[start + 12 + StructSize..]
            == PaletteOut(e) + LevelsOut(e.header, e.data, |PaletteOut(e)|, 0)
               + (SectionHeaderBytes(ExtensionId, 0, version) + tail)
  {
    var head := SectionHeaderBytes(StructId, StructSize, version);
    NativeBodyAndTail(version, e, tail);
    StructLayout(s, start, head, EncodeStruct(WriteStruct(e.header)),
                 PaletteOut(e) + LevelsOut(e.header, e.data, |PaletteOut(e)|, 0)
                 + (SectionHeaderBytes(ExtensionId, 0, version) + tail));
    assert Word(s[start..start + 4]) == StructId by {
      WordRoundTrip4(StructId, s[start..start + 4]);
    }
    DecodeEncode(WriteStruct(e.header));
  }

  /** What the read of a written payload comes to once the struct is read
      back: the texture with the descriptor written and whatever bytes the
      data read yields. */
  lemma WrittenNativeReads(s: Bytes, start: nat, version: bv32, e: Entry, tail: Bytes, reading: PaletteReading)
    requires Describable(e.header)
    requires start <= |s| && s[start..] == NativeBody(version, e) + tail
    ensures var h := e.header;
            var d := ReadTextureData(s, start + 12 + StructSize, DataSize(h), PaletteBytes(h.rasterFormat),
                                     h.mipmapCount, reading);
            && (d.Failure? ==> ReadTextureNative(s, start, reading) == NativeFailed(d.error))
            && (d.Success? ==> ReadTextureNative(s, start, reading) == NativeLoaded(Entry(h, d.value, h.width, h.height)))
  {
    WrittenStructReads(s, start, version, e, tail);
    HeaderRoundTrip(e.header);
    assert LevelCount(WriteStruct(e.header)) == e.header.mipmapCount;
  }

  /** The palette the writer emits for a texture whose buffer holds the
      data size is the buffer's first palette-size bytes; the palette and
      the levels are the stored bytes, which lie inside the buffer. */
  lemma StoredLayout(e: Entry)
    requires DataSize(e.header) <= |e.data|
    ensures PaletteOut(e) == e.data[..PaletteBytes(e.header.rasterFormat)]
    ensures PaletteBytes(e.header.rasterFormat) + SizeFrom(e.header, 0) == StoredBytes(e.header)
    ensures StoredBytes(e.header) <= |e.data|
  {
    SizeFromRest(e.header, 0);
  }

  /** A prefix put back into a zero buffer, with later bytes placed after
      it, is the prefix of the data over both, then zeros. */
  lemma PlacedStored(data: Bytes, p: nat, m: nat, size: nat)
    requires p <= m <= size && m <= |data|
    ensures Place(data[..p] + Zeros(size - p), p, data[p..m]) == data[..m] + Zeros(size - m)
  {
    var buf := data[..p] + Zeros(size - p);
    var placed := Place(buf, p, data[p..m]);
    assert placed == buf[..p] + data[p..m] + buf[m..];
    assert buf[..p] == data[..p];
    assert buf[m..] == Zeros(size - m);
    assert data[..p] + data[p..m] == data[..m];
  }

  /** With the palette step, a stream holding a buffer's first p bytes
      and then level records whose payload is the buffer's bytes from p to
      m reads back as the buffer's first m bytes, then zeros. */
  lemma StoredBytesReadBack(s: Bytes, at: nat, data: Bytes, p: nat, m: nat, size: nat, count: nat)
    requires p <= m <= size && m <= |data|
    requires at + p <= |s| && s[at..at + p] == data[..p]
    requires LevelPayload(s, at + p, count) == Success(data[p..m])
    ensures ReadTextureData(s, at, size, p, count, Corrected) == Success(data[..m] + Zeros(size - m))
  {
    var pal := data[..p];
    var buf := pal + Zeros(size - p);
    assert |pal| == p;
    CorrectedPalette(s, at, pal, size, count);
    PayloadPlaced(s, at + p, buf, p, count, data[p..m]);
    PlacedStored(data, p, m, size);
  }

  /** Levels whose payload is known are placed into the buffer. */
  lemma PayloadPlaced(s: Bytes, pos: nat, buf: Bytes, offset: nat, count: nat, payload: Bytes)
    requires offset <= |buf| && LevelPayload(s, pos, count) == Success(payload)
    ensures ReadLevels(s, pos, buf, offset, count) == Success(Place(buf, offset, payload))
  {
    ReadLevelsPlacesPayload(s, pos, buf, offset, count);
  }

  /** A stream that starts with a, then b, then c holds a at its start
      and b + c after it. */
  lemma SplitAfter(s: Bytes, at: nat, a: Bytes, b: Bytes, c: Bytes)
    requires at <= |s| && s[at..] == a + b + c
    ensures at + |a| <= |s| && s[at..at + |a|] == a && s[at + |a|..] == b + c
  {
    Assoc3(a, b, c);
    SuffixParts(s, at, a, b + c);
  }

  /** After the palette the writer emits come level records whose payload
      is the buffer's bytes from the palette size up to the stored bytes. */
  lemma WrittenLevelsAfterPalette(s: Bytes, at: nat, e: Entry, rest: Bytes)
    requires DataSize(e.header) <= |e.data| && SizesFitFrom(e.header, 0)
    requires at <= |s| && s[at..] == PaletteOut(e) + LevelsOut(e.header, e.data, |PaletteOut(e)|, 0) + rest
    ensures at + |PaletteOut(e)| <= |s| && s[at..at + |PaletteOut(e)|] == PaletteOut(e)
    ensures |PaletteOut(e)| + SizeFrom(e.header, 0) <= |e.data|
    ensures LevelPayload(s, at + |PaletteOut(e)|, e.header.mipmapCount)
            == Success(e.data[|PaletteOut(e)|..|PaletteOut(e)| + SizeFrom(e.header, 0)])
  {
    var pal := PaletteOut(e);
    StoredLayout(e);
    SplitAfter(s, at, pal, LevelsOut(e.header, e.data, |pal|, 0), rest);
    WrittenLevelsPayload(s, at + |pal|, e.header, e.data, |pal|, 0, rest);
    assert LevelPayload(s, at + |pal|, e.header.mipmapCount - 0) == Success(e.data[|pal|..|pal| + SizeFrom(e.header, 0)]);
  }

  /** The palette and level records of a texture whose buffer holds the
      data size and whose level sizes fit the field, read with the palette
      step, give back the stored bytes followed by zeros. */
  lemma WrittenDataReadsBack(s: Bytes, at: nat, e: Entry, rest: Bytes)
    requires DataSize(e.header) <= |e.data| && SizesFitFrom(e.header, 0)
    requires at <= |s| && s[at..] == PaletteOut(e) + LevelsOut(e.header, e.data, |PaletteOut(e)|, 0) + rest
    ensures StoredBytes(e.header) <= |e.data|
    ensures ReadTextureData(s, at, DataSize(e.header), PaletteBytes(e.header.rasterFormat), e.header.mipmapCount, Corrected)
            == Success(e.data[..StoredBytes(e.header)] + Zeros(DataSize(e.header) - StoredBytes(e.header)))
  {
    WrittenLevelsAfterPalette(s, at, e, rest);
    StoredLayout(e);
    StoredBytesReadBack(s, at, e.data, |PaletteOut(e)|, StoredBytes(e.header), DataSize(e.header), e.header.mipmapCount);
  }

  /** The loader with the palette step reads the payload the writer
      emitted for a describable texture whose level sizes fit the field
      back into its descriptor and its stored bytes, then zeros. */
  lemma WrittenStoredReadsBack(s: Bytes, start: nat, version: bv32, e: Entry, tail: Bytes)
    requires Describable(e.header) && DataSize(e.header) <= |e.data| && SizesFitFrom(e.header, 0)
    requires start <= |s| && s[start..] == NativeBody(version, e) + tail
    ensures ReadTextureNative(s, start, Corrected)
            == NativeLoaded(Entry(e.header, e.data[..StoredBytes(e.header)] + Zeros(DataSize(e.header) - StoredBytes(e.header)),
                                  e.header.width, e.header.height))
  {
    WrittenStructReads(s, start, version, e, tail);
    WrittenDataReadsBack(s, start + 12 + StructSize, e, SectionHeaderBytes(ExtensionId, 0, version) + tail);
    WrittenNativeReads(s, start, version, e, tail, Corrected);
  }

  /** Round trip of one texture, corrected: the loader with the palette
      step reads the payload the writer emitted for a reloadable texture
      back into that texture's descriptor, its palette and every level, and
      zeros for the rest of the data size. */
  lemma {:induction false} WrittenTextureReadsBackCorrected(s: Bytes, start: nat, version: bv32, e: Entry, tail: Bytes)
    requires Reloadable(e)
    requires start <= |s| && s[start..] == NativeBody(version, e) + tail
    ensures ReadTextureNative(s, start, Corrected) == NativeLoaded(Reloaded(e))
  {
    SizesFit(e.header, 0);
    WrittenStoredReadsBack(s, start, version, e, tail);
  }

  /** Round trip of one texture without a palette, as written: the two
      readings agree, so the loader as the program has it restores the
      texture too. */
  lemma WrittenPlainTextureReadsBack(s: Bytes, start: nat, version: bv32, e: Entry, tail: Bytes)
    requires Reloadable(e) && PaletteBytes(e.header.rasterFormat) == 0
    requires start <= |s| && s[start..] == NativeBody(version, e) + tail
    ensures ReadTextureNative(s, start, AsWritten) == NativeLoaded(Reloaded(e))
  {
    var h := e.header;
    WrittenTextureReadsBackCorrected(s, start, version, e, tail);
    WrittenNativeReads(s, start, version, e, tail, AsWritten);
    WrittenNativeReads(s, start, version, e, tail, Corrected);
    ReadingsAgreeWithoutPalette(s, start + 12 + StructSize, DataSize(h), h.mipmapCount);
  }

  /** The corrected loader restores a texture from the payload the writer
      emits for it; when the buffer is exactly the data size and the format
      does not carry both palette flags, the bytes come back unchanged. */
  lemma WrittenTextureReloads(version: bv32, e: Entry)
    requires Reloadable(e)
    ensures ReadTextureNative(NativeBody(version, e), 0, Corrected) == NativeLoaded(Reloaded(e))
    ensures |e.data| == DataSize(e.header) && !(HasPal4(e.header.rasterFormat) && HasPal8(e.header.rasterFormat))
            ==> ReadTextureNative(NativeBody(version, e), 0, Corrected).entry.data == e.data
  {
    WrittenTextureReadsBackCorrected(NativeBody(version, e), 0, version, e, []);
    if |e.data| == DataSize(e.header) && !(HasPal4(e.header.rasterFormat) && HasPal8(e.header.rasterFormat)) {
      ReloadedKeepsData(e);
    }
  }

  /** The fourth byte of a stream that starts with a palette of at least
      four bytes is the palette's fourth byte. */
  lemma FourthByte(s: Bytes, at: nat, pal: Bytes, b: Bytes, c: Bytes)
    requires at <= |s| && s[at..] == pal + b + c && |pal| >= 4
    ensures at + 4 <= |s| && s[at + 3] == pal[3]
  {
    assert s[at..][3] == pal[3];
  }

  /** Inside any stream: the loader as written fails on the payload the
      writer emits for a palettised texture whose fourth data byte is 0x80
      or above. */
  lemma WrittenOpaqueTextureFailsAsWritten(s: Bytes, start: nat, version: bv32, e: Entry, tail: Bytes)
    requires Describable(e.header) && 0 < PaletteBytes(e.header.rasterFormat) <= |e.data|
    requires e.header.mipmapCount > 0 && e.data[3] >= 0x80
    requires start <= |s| && s[start..] == NativeBody(version, e) + tail
    ensures ReadTextureNative(s, start, AsWritten) == NativeFailed(NegativeMipmapSize)
  {
    var h := e.header;
    var at := start + 12 + StructSize;
    WrittenStructReads(s, start, version, e, tail);
    var p := PaletteBytes(h.rasterFormat);
    var pal := PaletteOut(e);
    assert pal == e.data[..p];
    FourthByte(s, at, pal, LevelsOut(h, e.data, |pal|, 0), SectionHeaderBytes(ExtensionId, 0, version) + tail);
    OpaquePaletteFailsAsWritten(s, at, p, DataSize(h), h.mipmapCount);
    WrittenNativeReads(s, start, version, e, tail, AsWritten);
  }

  /** The loader as written fails on the very payload the writer emits for
      a palettised texture with at least one level whose first palette
      colour has its alpha byte at 0x80 or above (an opaque first colour,
      say): the palette's first four bytes are taken for a negative level
      size. */
  lemma WrittenOpaquePaletteFailsAsWritten(version: bv32, e: Entry)
    requires Describable(e.header) && 0 < PaletteBytes(e.header.rasterFormat) <= |e.data|
    requires e.header.mipmapCount > 0 && e.data[3] >= 0x80
    ensures ReadTextureNative(NativeBody(version, e), 0, AsWritten) == NativeFailed(NegativeMipmapSize)
  {
    WrittenOpaqueTextureFailsAsWritten(NativeBody(version, e), 0, version, e, []);
  }
}
