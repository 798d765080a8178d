/** save / writeToStream / writeTextureNative of core/TXDArchive.cpp: the
    bytes an archive is written as. Every section is a 12-byte header (id,
    payload size, version word) followed by its payload; txdedit writes a
    zero size first and patches it once the payload is out, which is the
    payload's length narrowed to 32 bits. */
module ArchiveWriter {
  import opened TxdTypes
  import opened LittleEndian
  import opened TextureHeader
  import opened TextureArchive
  import opened NativeStruct

  function SectionHeaderBytes(id: bv32, size: nat, version: bv32): (b: Bytes)
    ensures |b| == 12
    ensures b[0..4] == WordBytes(id) && b[8..12] == WordBytes(version)
    ensures LeValue(b[4..8]) == size % 0x1_0000_0000
  {
    WordBytes(id) + U32Bytes(size) + WordBytes(version)
  }

  function Section(id: bv32, version: bv32, payload: Bytes): (b: Bytes)
    ensures |b| == 12 + |payload|
    ensures b[..12] == SectionHeaderBytes(id, |payload|, version) && b[12..] == payload
  {
    SectionHeaderBytes(id, |payload|, version) + payload
  }

  /** The palette region is written only when the format has a palette and
      the buffer holds it. */
  function PaletteOut(e: Entry): (b: Bytes)
    ensures var p := PaletteBytes(e.header.rasterFormat);
            b == if 0 < p <= |e.data| then e.data[..p] else []
  {
    var p := PaletteBytes(e.header.rasterFormat);
    if 0 < p && p <= |e.data| then e.data[..p] else []
  }

  /** The levels from `level` on: each level's computed size (as int32), then
      its bytes from the running offset when the buffer holds them all; a
      level that does not fit is a bare size and the offset stays. */
  function LevelsOut(h: Header, data: Bytes, offset: nat, level: nat): (b: Bytes)
    ensures level >= h.mipmapCount ==> b == []
    ensures level < h.mipmapCount ==> |b| >= 4 && b[..4] == U32Bytes(MipmapDataSize(h, level))
    decreases h.mipmapCount - level
  {
    if level >= h.mipmapCount then []
    else
      var size := MipmapDataSize(h, level);
      if offset + size <= |data| then
        U32Bytes(size) + data[offset..offset + size] + LevelsOut(h, data, offset + size, level + 1)
      else
        U32Bytes(size) + LevelsOut(h, data, offset, level + 1)
  }

  /** The first two of five concatenated parts are found where they were put. */
  lemma LeadingParts(a: Bytes, b: Bytes, c: Bytes, d: Bytes, f: Bytes)
    ensures var s := a + b + c + d + f;
            |s| == |a| + |b| + |c| + |d| + |f| && s[..|a|] == a && s[|a|..|a| + |b|] == b
  {
    var s := a + b + c + d + f;
    assert s == a + (b + (c + d + f));
  }

  /** The payload of a texture native: the struct section with the 88-byte
      structure, the palette, the levels and an empty extension section. */
  function NativeBody(version: bv32, e: Entry): (b: Bytes)
    ensures |b| >= 12 + StructSize + 12
    ensures b[..12] == SectionHeaderBytes(StructId, StructSize, version)
  {
    var head := SectionHeaderBytes(StructId, StructSize, version);
    var st := EncodeStruct(WriteStruct(e.header));
    var pal := PaletteOut(e);
    var levels := LevelsOut(e.header, e.data, |pal|, 0);
    var ext := SectionHeaderBytes(ExtensionId, 0, version);
    LeadingParts(head, st, pal, levels, ext);
    head + st + pal + levels + ext
  }

  function TextureNativeBytes(version: bv32, e: Entry): (b: Bytes)
    ensures |b| == 12 + |NativeBody(version, e)|
  {
    Section(TextureNativeId, version, NativeBody(version, e))
  }

  /** The texture natives in archive order. */
  function NativesOut(version: bv32, textures: seq<Entry>): (b: Bytes)
    ensures |textures| == 0 ==> b == []
    ensures |textures| > 0 ==> b == TextureNativeBytes(version, textures[0]) + NativesOut(version, textures[1..])
  {
    if |textures| == 0 then []
    else TextureNativeBytes(version, textures[0]) + NativesOut(version, textures[1..])
  }

  lemma HeadOfConcat(head: Bytes, rest: Bytes)
    ensures (head + rest)[..|head|] == head
  {
  }

  /** The payload of the dictionary: a 4-byte struct section holding the
      texture count as int16 and a zero, the natives, an empty extension. */
  function DictionaryBody(version: bv32, a: Archive): (b: Bytes)
    ensures |b| >= 16 && b[..16] == SectionHeaderBytes(StructId, 4, version) + U16Bytes(|a.textures| % 0x1_0000) + [0, 0]
  {
    var head := SectionHeaderBytes(StructId, 4, version) + U16Bytes(|a.textures| % 0x1_0000) + [0, 0];
    var rest := NativesOut(version, a.textures) + SectionHeaderBytes(ExtensionId, 0, version);
    HeadOfConcat(head, rest);
    head + rest
  }

  /** writeToStream with a given version word in every section header. */
  function SaveWith(a: Archive, version: bv32): (b: Bytes)
    ensures |b| >= 12 && b[..12] == SectionHeaderBytes(DictionaryId, |DictionaryBody(version, a)|, version)
    ensures b[8..12] == WordBytes(version)
  {
    var b := Section(DictionaryId, version, DictionaryBody(version, a));
    assert b[8..12] == b[..12][8..12];
    b
  }

  /** save as txdedit does it: the version word from packGameVersion. */
  function Save(a: Archive): (b: Bytes)
    ensures |b| >= 12 && b[8..12] == WordBytes(PackGameVersion(a.gameVersion))
  {
    SaveWith(a, PackGameVersion(a.gameVersion))
  }

  /** save with the version word detectGameVersion recognises. */
  function SaveCorrected(a: Archive): (b: Bytes)
    ensures |b| >= 12 && b[8..12] == WordBytes(PackGameVersionCorrected(a.gameVersion))
  {
    SaveWith(a, PackGameVersionCorrected(a.gameVersion))
  }
}
