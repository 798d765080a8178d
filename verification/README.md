# TXD texture dictionary — a Dafny model

This project models the core of txdedit. txdedit reads and writes RenderWare texture dictionaries (`.txd` archives) for GTA III, Vice City and San Andreas, and it decodes the rasters they hold to RGBA8. The model covers four parts:

- **Shared types** (`txd_types.dfy`, `little_endian.dfy`):
  - the compression and raster-format constants and masks;
  - the byte-order helpers;
  - the little-endian encoding of the integers in the stream.
- **Texture descriptor** (`texture_header.dfy`, `header_properties.dfy`):
  - the `TextureHeader` fields;
  - the raster-format split into a base format and extension flags;
  - bytes per pixel;
  - mipmap level sizes and the total data size;
  - the maximum mipmap level;
  - the checked setters (`setRasterFormat`, the two name setters, the constructor) and the unchecked ones.
- **Pixel decoder** (`pixels.dfy`, `converter.dfy`, `converter_properties.dfy`):
  - `convertToRGBA8` for the uncompressed layouts (R8G8B8A8, B8G8R8A8, B8G8R8, R5G6B5, A1R5G5B5, R4G4B4A4), for DXT1 and DXT3 blocks, and for 4- and 8-bit palettes;
  - `canConvert`.
- **Archive codec** (`native_struct.dfy`, `archive.dfy`, `archive_reader.dfy`, `archive_writer.dfy`, `round_trip.dfy`, `archive_properties.dfy`):
  - the 88-byte texture-native structure;
  - section headers;
  - load: `readFromStream` and `readTextureNative`;
  - save: `writeToStream` and `writeTextureNative`;
  - game-version detection and packing;
  - the texture list with its case-insensitive name index (`addTexture`, `removeTexture`, `findTexture`, …).

Streams are byte sequences. An operation that throws returns a `Result`. A load returns the archive together with an optional error: txdedit clears the archive first, and it keeps the textures it parsed before a failure. Words whose bits matter are `bv32`: raster formats, section ids, version words and platform ids. Sizes and dimensions are unbounded integers in ranges that match txdedit's field widths.

Three places where txdedit disagrees with its own counterpart have both an as-written and a corrected definition (see "## Findings"):
- the converter's palette offset;
- game-version packing;
- the loader skipping the palette.

The as-written definitions carry txdedit's names (`Converter.ConvertToRgba8`, `TextureArchive.PackGameVersion`, `ArchiveWriter.Save`, `ArchiveReader.Load`). The corrected definitions are `Converter.ConvertToRgba8Corrected`, `TextureArchive.PackGameVersionCorrected` (used by `ArchiveWriter.SaveCorrected`) and the `Corrected` palette reading (used by `ArchiveReader.LoadCorrected`).

## Model

| member | source | states |
|---|---|---|
| TxdTypes.CompressionFromCode | core/TXDTypes.h:8-12 | reading a compression byte inverts the enum's numbering: codes 0, 1 and 3 (and only those) name NONE, DXT1 and DXT3; any other byte stays a distinct unnamed value with the same code |
| TxdTypes.CompressionCodeRoundTrip | core/TXDTypes.h:8-12 | every well-formed compression value survives being written as its byte code and read back |
| TxdTypes.FormatMasksPartition | core/TXDTypes.h:15-33 | the base-format mask and the extension mask share no bit; every base format lies inside the base mask and every extension flag inside the extension mask, so a format word splits without loss |
| TxdTypes.SwapEndian32 | core/TXDTypes.h:63-68 | byte k of the swapped word is byte 3 − k of the input |
| TxdTypes.SwapEndian16 | core/TXDTypes.h:70-72 | the two bytes of a half-word change places |
| TxdTypes.SwapEndian32Involution | core/TXDTypes.h:63-68 | swapping a 32-bit word twice gives it back |
| TxdTypes.SwapEndian16Involution | core/TXDTypes.h:70-72 | swapping a 16-bit word twice gives it back |
| TxdTypes.FromLittleEndian32 | core/TXDTypes.h:90-96 | converting back from little-endian, then to it again, gives the stored word on either host byte order |
| TxdTypes.FromLittleEndian16 | core/TXDTypes.h:98-104 | the same for 16-bit words |
| TxdTypes.LittleEndianRoundTrip | core/TXDTypes.h:74-104 | to- and from-little-endian are inverse on both host byte orders, for 32- and 16-bit words |
| TxdTypes.StoredWordIsLittleEndian | core/TXDTypes.h:74-80 | on either host, a word passed through toLittleEndian32 lies in memory lowest byte first, which is the stream's byte order |
| LittleEndian.LeValueOfBytes | core/TXDTypes.h:74-104 | a number below 256^k, written as k little-endian bytes, reads back as itself |
| LittleEndian.LeBytesOfValue | core/TXDTypes.h:74-104 | any byte string is the little-endian encoding of its own value, so reading then writing gives it back |
| LittleEndian.U32Bytes | core/TXDArchive.cpp:410-414 | a size written as a 32-bit field reads back as the size taken modulo 2^32 |
| LittleEndian.U16Bytes | core/TXDArchive.cpp:434-438 | a 16-bit field reads back as its value |
| LittleEndian.I32At | core/TXDArchive.cpp:165-169 | an int32 field lies in the signed range and is negative exactly when its unsigned reading is 2^31 or more |
| LittleEndian.AsSigned8 | core/TXDArchive.cpp:164 | an int8 count reads bytes 0x80–0xFF as negative values |
| LittleEndian.WordRoundTrip | core/TXDArchive.cpp:65-77 | a bit-pattern word written as four bytes reads back unchanged, and four stream bytes re-written from their word are the same bytes |
| TextureHeader.RasterFormat | core/TXDTextureHeader.h:19 | the base format keeps exactly the format word's bits inside the base mask |
| TextureHeader.RasterFormatExtension | core/TXDTextureHeader.h:21 | the extension keeps exactly the format word's bits inside the extension mask |
| TextureHeader.RasterFormatSplit | core/TXDTextureHeader.h:19-21 | the base format and the extension are disjoint and together give back every format bit of the word |
| TextureHeader.PaletteBytes | core/TXDArchive.cpp:152-157 | a palette region exists exactly when a palette flag is set, and holds at most 256 four-byte entries |
| TextureHeader.PaletteEntries | core/TXDConverter.cpp:53 | the palette region is four bytes per palette entry (16 entries for PAL4, 256 for PAL8) |
| TextureHeader.BytesPerPixel | core/TXDTextureHeader.cpp:25-45 | palettised formats take 1 byte per pixel whatever the base format; B8G8R8A8, R8G8B8A8 and B8G8R8 exactly take 4; the four 16-bit layouts exactly take 2; LUM8 is the only other 1; no format takes 3 |
| TextureHeader.MipmapDimension | core/TXDTextureHeader.cpp:66-72 | a level's side is never below its halved size, equals it once that reaches the minimum, and is at least 4 for block-compressed formats |
| TextureHeader.MipmapDataSizeByCompression | core/TXDTextureHeader.cpp:63-92 | a DXT1 level never drops below one 8-byte block and a DXT3 level below one 16-byte block; an uncompressed level is halved width × halved height × bytes per pixel; an unnamed compression has no level data |
| TextureHeader.DataSize | core/TXDTextureHeader.cpp:47-61 | the texture's data is the levels' sizes plus 64 palette bytes for PAL4 and 1024 for PAL8 |
| TextureHeader.FloorLog2 | core/TXDTextureHeader.cpp:108-111 | the integer logarithm brackets its argument between consecutive powers of two |
| TextureHeader.TruncatedLog2RatioSign | core/TXDTextureHeader.cpp:108-111 | the truncated log of side / minimum is non-negative exactly when the side exceeds half the minimum |
| TextureHeader.MaxMipmapLevel | core/TXDTextureHeader.cpp:94-112 | the maximum level is non-negative exactly when both sides exceed half the format's minimum block side |
| TextureHeader.FixMipmapCount | core/TXDTextureHeader.cpp:114-116 | the count never grows; only the count changes; it becomes min(count, maximum level + 1) whenever that fits a byte |
| TextureHeader.ResolveRasterFormat | core/TXDTextureHeader.cpp:118-133 | a default format resolves to R5G6B5 under DXT1 and R4G4B4A4 under DXT3 and otherwise stays default; any other format passes through |
| TextureHeader.SetRasterFormat | core/TXDTextureHeader.cpp:118-141 | fails exactly on a default uncompressed format, with nothing changed; otherwise format and compression are set, and it then fails exactly when a side is too small for the compression, with the new format kept; success leaves a non-negative maximum level |
| TextureHeader.SetDiffuseName | core/TXDTextureHeader.cpp:143-148 | names longer than 31 bytes are refused and leave the descriptor as it was; shorter ones replace only the name |
| TextureHeader.SetAlphaName | core/TXDTextureHeader.cpp:150-155 | the same 31-byte limit for the alpha name |
| TextureHeader.NewHeader | core/TXDTextureHeader.cpp:8-15 | construction fails exactly on a default uncompressed format, too-small dimensions or an over-long name; a built descriptor is valid, has the resolved format, no alpha name, one level, no alpha, no wrap and no filter |
| TextureHeader.SetRasterSize | core/TXDTextureHeader.h:36 | only width and height change, with no check |
| TextureHeader.SetMipmapCount | core/TXDTextureHeader.h:37 | only the level count changes, with no check |
| TextureHeader.SetAlphaChannelUsed | core/TXDTextureHeader.h:38 | only the alpha flag changes |
| TextureHeader.SetWrappingFlags | core/TXDTextureHeader.h:39 | only the two wrap modes change |
| TextureHeader.SetFilterFlags | core/TXDTextureHeader.h:40 | only the filter flags change |
| HeaderProperties.LevelDimensionIsQuotient | core/TXDTextureHeader.cpp:63-67 | scaling a side by 1/2^level and truncating is integer division by 2^level |
| HeaderProperties.LevelDimensionHalves | core/TXDTextureHeader.cpp:65-67 | each level's unclamped side is half the previous level's, rounded down |
| HeaderProperties.LevelDimensionNonIncreasing | core/TXDTextureHeader.cpp:65-67 | unclamped sides never grow from one level to a later one |
| HeaderProperties.LevelDimensionAtLeast | core/TXDTextureHeader.cpp:65-72 | a level's side reaches m exactly when m · 2^level fits in the base side |
| HeaderProperties.MipmapDataSizeNonIncreasing | core/TXDTextureHeader.cpp:63-92 | a later level never takes more bytes than an earlier one |
| HeaderProperties.UncompressedLevelPastSmallestSideIsEmpty | core/TXDTextureHeader.cpp:63-91 | an uncompressed level past the smaller side's logarithm has no pixels: its side truncates to 0 and only block formats clamp |
| HeaderProperties.Dxt1SizeExamples | core/TXDTextureHeader.cpp:63-92 | a 64×64 DXT1 texture has 2048 bytes at level 0 and 128 at level 2; a 4×4 one still has 8 at level 1 |
| HeaderProperties.MipmapsSizeNonDecreasing | core/TXDTextureHeader.cpp:47-51 | adding levels never shrinks the data size |
| HeaderProperties.LevelRegionWithinData | core/TXDTextureHeader.cpp:47-61 | the palette and the levels before a level, plus that level, fit inside the computed data size |
| HeaderProperties.LevelAtLeastIffBelowLog | core/TXDTextureHeader.cpp:94-112 | a level keeps the minimum side exactly when it is at most the integer log of side / minimum |
| HeaderProperties.MaxMipmapLevelIsLargestLevel | core/TXDTextureHeader.cpp:94-112 | for sides at the minimum or above, the maximum level is a level at which both sides still reach the format's minimum, and at the next one the width or the height falls below it |
| HeaderProperties.MaxMipmapLevelExamples | core/TXDTextureHeader.cpp:94-112 | for DXT1: 256×256 gives 6, 4×4 and 3×64 give 0, and 2×64 has no valid level |
| HeaderProperties.FixMipmapCountKeepsLevelsAboveMinimum | core/TXDTextureHeader.cpp:114-116 | after the fix every kept level has both sides at the format's minimum or above |
| HeaderProperties.UncheckedSettersSkipInvariant | core/TXDTextureHeader.h:36-37 | setting the size unchecked keeps a valid descriptor valid exactly when the new sides clear the compression's minimum; setting the level count keeps it valid |
| Pixels.Pixel16 | core/TXDConverter.cpp:309-311 | a 16-bit pixel is its low byte plus 256 times its high byte |
| Pixels.Expand5 | core/TXDConverter.cpp:140-142 | a 5-bit field widens to a byte whose low three bits are 0 and whose top bits give the field back |
| Pixels.Expand6 | core/TXDConverter.cpp:141 | a 6-bit field widens with two zero low bits and is recoverable |
| Pixels.Expand4 | core/TXDConverter.cpp:158-161 | a 4-bit field widens with four zero low bits and is recoverable |
| Pixels.Decode565 | core/TXDConverter.cpp:138-145 | red, green and blue are the 5-, 6- and 5-bit fields at bits 11, 5 and 0, each moved to the top of its byte with zero low bits, so they peak at 248/252/248 |
| Pixels.Decode565RoundTrip | core/TXDConverter.cpp:138-145 | packing the decoded channels gives back the 16-bit pixel |
| Pixels.Decode1555 | core/TXDConverter.cpp:147-154 | alpha is 255 exactly when bit 15 is set and 0 otherwise; red, green and blue are the 5-bit fields at bits 10, 5 and 0 moved to the top of their bytes |
| Pixels.Decode1555RoundTrip | core/TXDConverter.cpp:147-154 | packing the decoded channels gives back the 16-bit pixel |
| Pixels.Decode4444 | core/TXDConverter.cpp:156-163 | red, green, blue and alpha are the nibbles at bits 12, 8, 4 and 0 moved to the high nibble, so each is at most 240 |
| Pixels.Decode4444RoundTrip | core/TXDConverter.cpp:156-163 | packing the decoded channels gives back the 16-bit pixel |
| Pixels.DecodeRaw | core/TXDConverter.cpp:114-179 | each uncompressed layout takes its bytes in its own order (BGRA and BGR swapped to RGBA, BGR and LUM8 opaque, the 16-bit layouts recoverable from their channels); a format with no layout gives opaque black |
| Pixels.TwoThirds | core/TXDConverter.cpp:209-214 | a DXT interpolated channel is (2a + b) / 3 truncated, and lies between the two endpoint channels |
| Pixels.Half | core/TXDConverter.cpp:216-218 | the three-colour midpoint channel is (a + b) / 2 truncated, and lies between the endpoints |
| Pixels.BetweenSame | core/TXDConverter.cpp:207-224 | when both endpoints are equal, every interpolated colour equals them |
| Pixels.ColorTable | core/TXDConverter.cpp:199-224 | entries 0 and 1 are the decoded endpoints; in four-colour mode entries 2 and 3 are (2c0 + c1) / 3 and (c0 + 2c1) / 3 per channel, both between the endpoints; in three-colour mode entry 2 is the per-channel midpoint and entry 3 is black |
| Pixels.TexelIndexIsRowByte | core/TXDConverter.cpp:196 | a texel's 2-bit index is taken from the byte of its row, at bit 2·x |
| Pixels.Dxt1Texel | core/TXDConverter.cpp:194-239 | a DXT1 texel is transparent exactly in three-colour mode (c0 ≤ c1) with index 3, and otherwise opaque with the table colour |
| Pixels.Dxt1Color | core/TXDConverter.cpp:207-239 | the texel colour is table entry index of the block's colour table |
| Pixels.Dxt3AlphaIsNibble | core/TXDConverter.cpp:256-294 | a DXT3 texel's alpha is the low nibble (even x) or high nibble (odd x) of byte 2y + x/2 of the alpha block, moved to the high nibble |
| Pixels.Dxt3Texel | core/TXDConverter.cpp:262-302 | a DXT3 texel takes its alpha from the explicit alpha block and its colour always from the four-colour table |
| Converter.OutputSide | core/TXDConverter.cpp:21-26 | the output side is the level's halved side but never below 1 |
| Converter.LevelOffset | core/TXDConverter.cpp:31-43 | a level starts after the palette region and all earlier levels |
| Converter.PaletteLayoutAsWritten | core/TXDConverter.cpp:34-56 | as written, the palette table is read at the level's offset (after the palette region) and the indices 4 · entries bytes later |
| Converter.PaletteLayoutCorrected | core/TXDConverter.cpp:51-56 | corrected, the table is read from the palette region at offset 0 and the indices from the level's offset |
| Converter.BlocksAlong | core/TXDConverter.cpp:187-188 | the block count along a side is the side divided by 4, rounded up |
| Converter.ClampIndex | core/TXDConverter.cpp:432-435 | an index inside the palette is kept and any index past it becomes 0 |
| Converter.PaletteEntry | core/TXDConverter.cpp:437-443 | an output pixel is the four bytes of its palette entry, in order |
| Converter.PaletteImage | core/TXDConverter.cpp:430-445 | one output pixel per index, each the clamped entry of the table |
| Converter.UncompressedImage | core/TXDConverter.cpp:101-181 | one pixel per position, decoded from that pixel's bytes; an empty level gives only zero pixels |
| Converter.BlockIndex | core/TXDConverter.cpp:190-192 | the block number of a pixel is row-major over the blocks, below the block count |
| Converter.BlockImage | core/TXDConverter.cpp:184-244 | one output pixel per position, each the texel its block assigns to it |
| Converter.DecodeLevel | core/TXDConverter.cpp:51-74 | every decode path yields exactly width × height pixels |
| Converter.Flatten | core/TXDConverter.cpp:176-179 | pixel i occupies output bytes 4i to 4i + 3 as R, G, B, A |
| Converter.ConvertToRgba8 | core/TXDConverter.cpp:11-77 | conversion answers exactly when the format can be converted, with width × height × 4 bytes |
| Converter.ConvertToRgba8Corrected | core/TXDConverter.cpp:11-77 | the corrected conversion has the same gate and size, with the palette table read from the palette region |
| ConverterProperties.BlockPixelAt | core/TXDConverter.cpp:226-238 | the pixel written for texel (x, y) of block (bx, by) is at row 4·by + y, column 4·bx + x |
| ConverterProperties.BlockLoopWritesTexel | core/TXDConverter.cpp:190-241 | the block decoder gives each in-range pixel the texel its own block and position assign it |
| ConverterProperties.BlockLoopCoversEachPixelOnce | core/TXDConverter.cpp:226-231 | along each axis a pixel is reached from exactly one block and in-block offset, and that block lies inside the block count |
| ConverterProperties.UncompressedReadWithinLevel | core/TXDConverter.cpp:108-112 | the uncompressed decoder reads no byte past the level's computed size |
| ConverterProperties.UncompressedReadWithinData | core/TXDConverter.cpp:40-45 | for a level inside the level count, the uncompressed decoder stays inside the texture's data size |
| ConverterProperties.BlockSideCoversMipmapSide | core/TXDConverter.cpp:187-188 | the blocks along the output side cover no less than the stored side's blocks |
| ConverterProperties.BlockReadCoversLevel | core/TXDConverter.cpp:187-192 | the block decoder reads at least the level's computed size, and exactly that when each side is below 4 or a multiple of 4 |
| ConverterProperties.BlockReadExample | core/TXDConverter.cpp:187-192 | a 6×6 DXT1 level is sized at 18 bytes, yet the decoder reads 32 |
| ConverterProperties.PaletteAsWrittenReadsPastData | core/TXDConverter.cpp:33-56 | on a one-level palettised texture the as-written decoder reads up to the data size plus the palette size, past the data |
| ConverterProperties.PaletteAsWrittenExample | core/TXDConverter.cpp:33-56 | a 4×4 PAL8 texture holds 1040 bytes but the as-written decoder reads up to byte 2064 |
| ConverterProperties.PaletteCorrectedReadsWithinData | core/TXDConverter.cpp:51-56 | the corrected palette decoder stays inside the texture's data for any level inside the count |
| ConverterProperties.PaletteOutputIsTableEntry | core/TXDConverter.cpp:430-443 | in the corrected conversion, each output pixel of a palettised level is the palette entry its index selects, or entry 0 when the index is out of range (txdedit's own conversion reads the table at the level offset instead) |
| ConverterProperties.ConvertersAgreeWithoutPalette | core/TXDConverter.cpp:45-60 | without a palette, txdedit's conversion and the corrected one give the same result, since only the palette layout differs |
| ConverterProperties.EmptyLevelIsBlank | core/TXDConverter.cpp:101-109 | an uncompressed level without a palette whose stored width or height at that level is 0 converts, in both conversions, to all-zero bytes: the pixel loops do not run and the output, clamped to at least 1×1, keeps its zeros |
| ConverterProperties.Rgba8LevelIsCopied | core/TXDConverter.cpp:117-122 | an uncompressed R8G8B8A8 level without a palette whose stored sides are both at least 1 converts, in both conversions, to a copy of its bytes |
| NativeStruct.EncodeStruct | core/TXDArchive.cpp:9-24 | the 88-byte record lays each field at its packed offset in little-endian order |
| NativeStruct.DecodeStruct | core/TXDArchive.cpp:94-105 | reading the record takes each field from its packed offset |
| NativeStruct.DecodeEncode | core/TXDArchive.cpp:9-24 | a record written and read back is the same record |
| NativeStruct.EncodeDecode | core/TXDArchive.cpp:94-97 | 88 bytes read and written back are the same bytes |
| NativeStruct.CString | core/TXDArchive.cpp:133-134 | a name is the field's bytes before the first NUL and contains no NUL |
| NativeStruct.NameField | core/TXDArchive.cpp:344-345 | a name field is 32 bytes whose last byte is NUL |
| NativeStruct.NameFieldRoundTrip | core/TXDArchive.cpp:344-345 | a name reads back from its field as its C string cut to 31 bytes; a NUL-free name of at most 31 bytes reads back unchanged |
| NativeStruct.FourCCCompression | core/TXDArchive.cpp:114-121 | "DXT1" and "DXT3" name their compressions and any other four-cc names none |
| NativeStruct.ReadCompression | core/TXDArchive.cpp:108-130 | on platform 9 the compression comes from the four-cc and alpha from the flag byte being 9 or 1; on other platforms flag byte 1 is DXT1, 3 is DXT3, anything else none, and alpha is the alpha word being 1; the result is never an unnamed compression |
| NativeStruct.WrittenFourCC | core/TXDArchive.cpp:355-369 | the four-cc the writer stores reads back as the descriptor's compression, and as none for an unnamed one |
| NativeStruct.WrittenCompressionOrAlpha | core/TXDArchive.cpp:371-373 | the written flag byte is 9 or 1 exactly when the alpha channel is used, so the reader's alpha test recovers it |
| NativeStruct.WriteStruct | core/TXDArchive.cpp:338-352 | the written record has the D3D9 platform and texture raster type, the descriptor's filter, wrap, format, sizes and level count, and 8 bits per byte of pixel |
| NativeStruct.ReadWrittenCompression | core/TXDArchive.cpp:339-373 | the compression and alpha flag read from a written record are the descriptor's (an unnamed compression reads as none) |
| TextureArchive.LowerByte | core/TXDArchive.cpp:476 | lower-casing leaves no capital, leaves other bytes alone and changes a capital only in bit 5 |
| TextureArchive.LowerName | core/TXDArchive.cpp:475-476 | a lower-cased name has the same length and no capital letters |
| TextureArchive.LowerNameIdempotent | core/TXDArchive.cpp:475-476 | lower-casing twice is lower-casing once, and leaves an already lower-case name alone |
| TextureArchive.BuildIndex | core/TXDArchive.cpp:561-567 | each indexed name points at a texture with that name, and each texture's name is indexed at its position or later |
| TextureArchive.BuildIndexOfKeys | core/TXDArchive.cpp:561-567 | the rebuilt index depends only on the textures' lower-cased names |
| TextureArchive.EmptyArchive | core/TXDArchive.cpp:26-27 | a new dictionary has no textures, a consistent index and an unknown version |
| TextureArchive.GetTexture | core/TXDArchive.cpp:460-465 | a descriptor exists exactly for positions inside the list |
| TextureArchive.FindTexture | core/TXDArchive.cpp:474-482 | on any index whose positions are in range, a name finds a descriptor exactly when its lower-cased form is indexed; on a consistent archive, exactly when some texture carries it up to case, and then it is the last such texture's descriptor |
| TextureArchive.GetTextureData | core/TXDArchive.cpp:494-503 | a data buffer exists exactly for positions inside the list, and it is that texture's |
| TextureArchive.GetOriginalDimensions | core/TXDArchive.cpp:517-528 | in range, the size recorded when the texture was added; out of range, the descriptor's current size |
| TextureArchive.Append | core/TXDArchive.cpp:192-195 | appending keeps the earlier textures and the index consistent |
| TextureArchive.AddTexture | core/TXDArchive.cpp:530-549 | the texture goes last with its size as the original size; empty data becomes a zero buffer of the data size; the index stays consistent |
| TextureArchive.RemoveTexture | core/TXDArchive.cpp:551-568 | an out-of-range position changes nothing; otherwise that texture alone leaves the list and the index is consistent |
| TextureArchive.RemoveTextureByName | core/TXDArchive.cpp:570-577 | an unindexed name changes nothing; an indexed one removes the texture at the position the index holds, whether or not the index is still accurate, and the index comes out consistent |
| TextureArchive.SetTextureData | core/TXDArchive.cpp:505-515 | an out-of-range position changes nothing; otherwise only the chosen texture changes: its bytes become the given ones and its original width and height are reset to the descriptor's current size |
| TextureArchive.EditHeader | core/TXDArchive.cpp:460-465 | an edit through the returned descriptor changes only that descriptor and leaves the index as it was |
| TextureArchive.SetGameVersion | core/TXDArchive.h:53-54 | only the version changes |
| TextureArchive.DetectGameVersion | core/TXDArchive.cpp:201-222 | 0x0C02FFFF, 0x1003FFFF and 0x1803FFFF (and only those) are GTA III, Vice City and San Andreas |
| TextureArchive.PackGameVersion | core/TXDArchive.cpp:224-265 | the packed word has a zero upper half, and San Andreas and unknown both pack to 0x0C18 |
| TextureArchive.PackGameVersionCorrected | core/TXDArchive.cpp:224-265 | corrected: each game packs to a word with low half 0xFFFF, with San Andreas's 0x1803FFFF for unknown |
| ArchiveProperties.IndexIsLast | core/TXDArchive.cpp:561-567 | an indexed name points at the last texture carrying it |
| ArchiveProperties.IndexedIffPresent | core/TXDArchive.cpp:561-567 | a name is indexed exactly when some texture carries it |
| ArchiveProperties.AddThenFind | core/TXDArchive.cpp:545-548 | after adding, the new name finds the new descriptor and every other name finds what it found before |
| ArchiveProperties.FindThroughIndex | core/TXDArchive.cpp:474-482 | on a consistent archive, the index answers exactly as a search for the last match would |
| ArchiveProperties.RemoveShiftsPresentKey | core/TXDArchive.cpp:551-568 | after a removal every other indexed name still points at the same texture, at its shifted position |
| ArchiveProperties.RemoveAddsNoKey | core/TXDArchive.cpp:551-568 | a removal indexes no new name |
| ArchiveProperties.RemoveKeepsOtherNames | core/TXDArchive.cpp:551-568 | removing a texture changes the lookup of no other name |
| ArchiveProperties.RemoveIndexedKey | core/TXDArchive.cpp:570-577 | removing the indexed texture leaves its name indexed exactly when an earlier texture carries it |
| ArchiveProperties.RemoveByNameKeepsEarlierDuplicate | core/TXDArchive.cpp:570-577 | after removal by name, the name still finds a texture exactly when two textures carried it |
| ArchiveProperties.EditKeepingNameConsistent | core/TXDArchive.cpp:460-465 | editing a descriptor without renaming it keeps the index consistent |
| ArchiveProperties.RenameLeavesStaleIndex | core/TXDArchive.cpp:579-583 | renaming through the descriptor leaves the old name indexed with no texture carrying it, because applyTextureHeader does nothing |
| ArchiveProperties.RenamedTextureFoundByOldName | core/TXDArchive.cpp:579-583 | after a rename through the descriptor the old name still finds the renamed descriptor and removes that texture, and the new name finds nothing unless another texture already carried it |
| ArchiveReader.ReadSectionHeader | core/TXDArchive.cpp:65-77 | a header is read exactly when 12 bytes remain: id, size and version from their offsets |
| ArchiveReader.HeaderOfStruct | core/TXDArchive.cpp:132-145 | PS2 records are refused; otherwise the descriptor is rebuilt field by field, and a record is accepted exactly when its format and sizes form a valid descriptor |
| ArchiveReader.LevelCount | core/TXDArchive.cpp:164 | the level count is the signed byte; 128–255 read as negative and give no levels |
| ArchiveReader.ReadLevels | core/TXDArchive.cpp:164-181 | reading levels never alters the buffer before the running offset; a truncated size, a negative size or short data each fail |
| ArchiveReader.Place | core/TXDArchive.cpp:172-180 | a chunk written at an offset keeps the bytes before it, sits at the offset, and keeps the bytes after it when it fits; otherwise the buffer ends with it |
| ArchiveReader.PlaceTwice | core/TXDArchive.cpp:164-181 | two chunks written one after the other land where their concatenation would |
| ArchiveReader.ReadLevelsPlacesPayload | core/TXDArchive.cpp:164-181 | the mipmap loop fails exactly when the level records do, with the first bad record's error; otherwise it leaves the records' bytes, concatenated, at the palette offset, so level i lands after the sizes of the levels before it |
| ArchiveReader.ReadPalette | core/TXDArchive.cpp:151-161 | corrected: the palette region is filled from the stream, or the read fails when the stream is short |
| ArchiveReader.ReadTextureNative | core/TXDArchive.cpp:79-199 | stops exactly when no section header remains; a native without a struct child fails, a short struct fails; otherwise a descriptor error or a data error is the result, and a loaded texture has the descriptor its record decodes to, the data read for it after the struct, at least its data size of bytes, and its size as original size |
| ArchiveReader.ReadTextureData | core/TXDArchive.cpp:147-181 | as written, the levels are read from right after the struct into a zero buffer at the palette offset; the buffer is at least the data size |
| ArchiveReader.ChildAt | core/TXDArchive.cpp:285-313 | each child is skipped by its declared size; a texture native yields a texture and any other child is passed over |
| ArchiveReader.ReadChildren | core/TXDArchive.cpp:284-314 | the child loop only appends textures, never changes the version, and any error it reports is a texture-level one |
| ArchiveReader.ReadChildrenConsistent | core/TXDArchive.cpp:284-314 | the name index stays consistent through the child loop |
| ArchiveReader.LoadWith | core/TXDArchive.cpp:267-315 | the archive is cleared first; a stream under 12 bytes is a missing header; a foreign top section is refused; otherwise the result is the child loop from byte 12 to the end of the declared size, started on an empty archive with the version detected from the header; the index stays consistent |
| ArchiveReader.Load | core/TXDArchive.cpp:47-51 | loading as txdedit does it, with the palette left in the stream, leaves a consistent index whatever the bytes |
| ArchiveReader.LoadCorrected | core/TXDArchive.cpp:47-51 | the corrected load also leaves a consistent index whatever the bytes |
| ArchiveWriter.SectionHeaderBytes | core/TXDArchive.cpp:321-328 | a section header is 12 bytes: the id, the size modulo 2^32, the version |
| ArchiveWriter.Section | core/TXDArchive.cpp:409-414 | a section is its header with the payload's length followed by the payload |
| ArchiveWriter.PaletteOut | core/TXDArchive.cpp:378-389 | the palette region is written only when the format has one and the buffer holds it |
| ArchiveWriter.LevelsOut | core/TXDArchive.cpp:391-400 | every level inside the count starts with its computed size, even when the buffer is too short for its bytes |
| ArchiveWriter.NativeBody | core/TXDArchive.cpp:330-407 | a texture native's payload opens with an 88-byte struct section |
| ArchiveWriter.TextureNativeBytes | core/TXDArchive.cpp:317-415 | a texture native is its payload behind a 12-byte section header |
| ArchiveWriter.NativesOut | core/TXDArchive.cpp:440-443 | the natives are written one after another in archive order |
| ArchiveWriter.DictionaryBody | core/TXDArchive.cpp:428-450 | the dictionary payload opens with a 4-byte struct holding the texture count as a 16-bit value and a zero |
| ArchiveWriter.SaveWith | core/TXDArchive.cpp:417-458 | the saved stream opens with a dictionary header carrying the given version word |
| ArchiveWriter.Save | core/TXDArchive.cpp:417-426 | as written, the header carries packGameVersion's word |
| ArchiveWriter.SaveCorrected | core/TXDArchive.cpp:417-426 | corrected, the header carries the word the loader recognises |
| ArchiveRoundTrip.ReadWrittenSectionHeader | core/TXDArchive.cpp:65-77 | a written section header reads back as the same id, size and version |
| ArchiveRoundTrip.HeaderRoundTrip | core/TXDArchive.cpp:338-373 | a valid descriptor with NUL-free names, written into a record, is rebuilt unchanged by the reader |
| ArchiveRoundTrip.SizeFieldReads | core/TXDArchive.cpp:165-169 | a written level size below 2^31 reads back as that size |
| ArchiveRoundTrip.NegativeField | core/TXDArchive.cpp:165-169 | a size field reads negative exactly when its fourth byte is 0x80 or above |
| ArchiveRoundTrip.OpaquePaletteFailsAsWritten | core/TXDArchive.cpp:159-181 | with a palette in front of the levels, the as-written reader fails on a negative size when the palette's fourth byte is 0x80 or more |
| ArchiveRoundTrip.CorrectedPalette | core/TXDArchive.cpp:151-161 | the corrected reader copies the stream's palette into the palette region |
| ArchiveRoundTrip.PackGameVersionNeverDetected | core/TXDArchive.cpp:224-265 | no word packGameVersion writes is recognised by detectGameVersion |
| ArchiveRoundTrip.PackGameVersionCorrectedDetected | core/TXDArchive.cpp:201-222 | every corrected packed word is detected as its own game, and unknown as San Andreas |
| ArchiveRoundTrip.SavedVersionLoads | core/TXDArchive.cpp:277-278 | a saved stream is never refused as missing or foreign, and loads with the version its header word detects as |
| ArchiveRoundTrip.SaveLosesVersion | core/TXDArchive.cpp:421-426 | every archive saved as written loads back with an unknown game version |
| ArchiveRoundTrip.SaveCorrectedKeepsVersion | core/TXDArchive.cpp:421 | saved with the corrected pack, the game version survives a reload (unknown comes back as San Andreas) |
| ArchiveRoundTrip.RecordsPayload | core/TXDArchive.cpp:164-181 | size-prefixed records of chunks below 2^31 bytes read back as the chunks concatenated |
| ArchiveRoundTrip.LevelsOutWritten | core/TXDArchive.cpp:391-400 | the writer's level output is a function of the list of level sizes alone |
| ArchiveRoundTrip.WrittenRecords | core/TXDArchive.cpp:391-400 | when the buffer holds every level, the level output is size-prefixed records of the buffer's consecutive chunks |
| ArchiveRoundTrip.ChunksConcat | core/TXDArchive.cpp:391-400 | those chunks together are the buffer's bytes over the levels |
| ArchiveRoundTrip.WrittenLevelsPayload | core/TXDArchive.cpp:391-400 | the level records the writer emits, for a buffer that holds every level and sizes below 2^31, read back as the buffer's bytes over those levels |
| ArchiveRoundTrip.WrittenStructReads | core/TXDArchive.cpp:330-352 | in the writer's payload the struct header comes first, its record decodes to the written record, and the palette, the levels and the extension follow it |
| ArchiveRoundTrip.WrittenNativeReads | core/TXDArchive.cpp:79-199 | for a descriptor the record carries, reading the writer's payload fails or succeeds exactly as reading the data after the struct does, and a success carries the texture's own descriptor and size |
| ArchiveRoundTrip.StoredBytesWhole | core/TXDArchive.cpp:378-400 | the writer stores every byte of the data size exactly when the format does not carry both palette flags |
| ArchiveRoundTrip.Reloaded | core/TXDArchive.cpp:147-195 | a texture as the loader rebuilds it: the same descriptor, a buffer of the data size holding the stored bytes then zeros, the descriptor's size as original size |
| ArchiveRoundTrip.ReloadedKeepsData | core/TXDArchive.cpp:378-400 | a buffer of exactly the data size, in a format without both palette flags, is rebuilt unchanged |
| ArchiveRoundTrip.StoredBytesReadBack | core/TXDArchive.cpp:151-181 | with the palette step, a stored palette followed by level records read back as the stored bytes then zeros |
| ArchiveRoundTrip.WrittenDataReadsBack | core/TXDArchive.cpp:147-181 | the palette and level records the writer emits read back, with the palette step, as the stored bytes then zeros |
| ArchiveRoundTrip.WrittenStoredReadsBack | core/TXDArchive.cpp:79-199 | with the palette step, the writer's payload loads back as the texture's descriptor with its stored bytes then zeros |
| ArchiveRoundTrip.WrittenTextureReadsBackCorrected | core/TXDArchive.cpp:79-199 | with the palette step, the writer's payload for a reloadable texture, wherever it sits in a stream, loads back as that texture rebuilt |
| ArchiveRoundTrip.ReadingsAgreeWithoutPalette | core/TXDArchive.cpp:147-181 | for a format without a palette the as-written and the corrected readings give the same result |
| ArchiveRoundTrip.WrittenPlainTextureReadsBack | core/TXDArchive.cpp:147-181 | for a format without a palette the as-written loader restores the texture too |
| ArchiveRoundTrip.WrittenTextureReloads | core/TXDArchive.cpp:317-415 | the corrected loader restores every texture the writer emits with a record-carried descriptor, a buffer holding at least the data size, and level sizes below 2^31; a buffer of exactly the data size without both palette flags comes back byte for byte |
| ArchiveRoundTrip.WrittenOpaqueTextureFailsAsWritten | core/TXDArchive.cpp:159-169 | inside any stream, the as-written loader fails with a negative size on the writer's payload for a palettised texture with at least one level whose fourth data byte is 0x80 or more |
| ArchiveRoundTrip.WrittenOpaquePaletteFailsAsWritten | core/TXDArchive.cpp:159-169 | on the writer's own bytes for a palettised texture with at least one level whose first colour has alpha 0x80 or more, the as-written loader fails with a negative size |

## Left out

- A save-then-load theorem for a whole archive is not proved. One texture's payload is proved to load back (WrittenTextureReloads), and the version word and section headers separately; the child loop over several natives is not composed with them.
- getFormat builds a display string only and is not modelled.
- applyTextureHeader does nothing in txdedit; `TextureArchive.ApplyTextureHeader` is the identity. Its consequence is stated by ArchiveProperties.RenameLeavesStaleIndex.
- compressToDXT, getCompressedDataSize and generatePalette call into external block-compression and quantisation libraries, which are not part of this model.
- The file-path overloads of load and save, and stream state, are left out. Streams are byte sequences; an open or write failure is I/O and is not modelled.
- The host's byte order is a parameter of the byte-order helpers in `TxdTypes` only. The stream is always little-endian, and the rest of the model works on stream bytes.
- calculateMaximumMipmapLevel works in floating point (log2 of a quotient, truncated to int8). The model uses an integer truncated logarithm.
- A zero width or height makes the float-to-int8 cast undefined; the model returns -128 there.
- getPixel32 is declared but unused by the decoders, and is not modelled.
- The declared resizeTextureData has no definition, and is not modelled.
- RW_VERSION_GTASA is never used, and is not modelled.
- getTextureCount is the length of the texture list and needs no member.
- The pixel decoder reads past its buffer where txdedit has undefined behaviour. The model makes the read extent a requirement on the buffer length (`ReadExtent`). The palette path's extent is a finding below.
- Pointer identity of the descriptors returned by getTexture and findTexture is modelled by position: `EditHeader` is an edit through the pointer.
- TextureHeader.MipmapDataSize: computed with unbounded integers, and has no contract of its own. Its properties are in MipmapDataSizeByCompression. txdedit's int products overflow once width × height × bytes per pixel reaches 2^31 (65535 × 65535 × 4, say).
- TextureHeader.DataSize: the unbounded sum leaves out the same int overflow.
- Converter.ConvertToRgba8: the width × height × 4 output size is unbounded, leaving out the same int overflow.
- Converter.ConvertToRgba8: the level is a natural number, while txdedit takes an int; a negative level would scale the output up and skip the offset loop, but every caller in txdedit passes 0.
- ArchiveReader.ReadLevels: a negative size is a failure outright. txdedit reaches a failure through size_t wrap-around: either an allocation failure or a short read.
- ArchiveReader.ReadChildren: states prefix preservation and the error kind. Which children are appended is stated per child by ChildAt.
- ArchiveWriter.NativeBody: states the length and the struct header. The rest of the layout is stated through the lemmas of `ArchiveRoundTrip`.
- The texture count in the dictionary's struct child is skipped on load, as txdedit does.
- ArchiveRoundTrip.WrittenTextureReloads: byte-for-byte equality is stated only for a buffer of exactly the data size whose format does not carry both palette flags. With both flags the data size counts 64 + 1024 palette bytes while the writer stores 1024, and bytes past the data size are never written, so those buffers come back as `Reloaded` describes.
- ArchiveRoundTrip.WrittenTextureReloads: a buffer shorter than the data size (setTextureData and addTexture store any buffer) is not covered: the writer then emits a bare level size without its bytes, and no reload is promised for it.

## Findings

| source | as written | input that shows it | evidently intended | confidence | as-written member | corrected member |
|---|---|---|---|---|---|---|
| core/TXDConverter.cpp:33-56 | the level offset already skips the palette region, and the palette table is then read at that offset with the indices 4 · entries bytes after it | a 4×4 PAL8 R8G8B8A8 texture with one level: its data size is 1040 bytes, but the decoder reads up to byte 2064 | the table read from the palette region at offset 0, the indices from the level offset | high, not executed | ConverterProperties.PaletteAsWrittenExample | ConverterProperties.PaletteCorrectedReadsWithinData |
| core/TXDArchive.cpp:224-265 | packGameVersion writes 16-bit library numbers (0x0311, 0x0343, 0x0C18) that detectGameVersion never recognises | save any archive and load it again: the game version comes back unknown | the full version words detectGameVersion matches (0x0C02FFFF, 0x1003FFFF, 0x1803FFFF) | medium, not executed | ArchiveRoundTrip.SaveLosesVersion | ArchiveRoundTrip.SaveCorrectedKeepsVersion |
| core/TXDArchive.cpp:151-181 | the palette size is computed but the palette is never read, so the first four palette bytes are taken as the first level's size | a PAL8 texture written by the writer whose first palette colour has alpha 0xFF: the size reads negative and the load fails | read the palette into the palette region before the level records | high, not executed | ArchiveRoundTrip.WrittenOpaquePaletteFailsAsWritten | ArchiveRoundTrip.WrittenTextureReloads |
