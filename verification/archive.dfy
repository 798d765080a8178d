/** The in-memory texture dictionary of core/TXDArchive.h and the texture
    management half of core/TXDArchive.cpp: textures in file order, an index
    from lower-cased diffuse name to position, and the game version. */
module TextureArchive {
  import opened Wrappers
  import opened TxdTypes
  import opened TextureHeader

  /** One stored texture: its descriptor, its bytes (palette region, then the
      mipmap levels) and the dimensions its bytes were last set for. */
  datatype Entry = Entry(header: Header, data: Bytes, originalWidth: u16, originalHeight: u16)

  datatype Archive = Archive(textures: seq<Entry>, nameIndex: map<Bytes, nat>, gameVersion: GameVersion)

  // ---------------------------------------------------------------- section identifiers

  const DictionaryId: bv32 := 0x16
  const TextureNativeId: bv32 := 0x15
  const StructId: bv32 := 0x01
  const ExtensionId: bv32 := 0x03

  // ---------------------------------------------------------------- names

  predicate IsUpper(b: Byte) {
    0x41 <= b <= 0x5A
  }

  /** ::tolower in the "C" locale: only the letters A-Z change. */
  function LowerByte(b: Byte): (r: Byte)
    ensures !IsUpper(r)
    ensures !IsUpper(b) ==> r == b
    ensures IsUpper(b) ==> r != b && r & 0xDF == b
  {
    if IsUpper(b) then b + 0x20 else b
  }

  function LowerName(s: Bytes): (r: Bytes)
    ensures |r| == |s|
    ensures forall i :: 0 <= i < |s| ==> r[i] == LowerByte(s[i])
    ensures forall i :: 0 <= i < |r| ==> !IsUpper(r[i])
  {
    seq(|s|, i requires 0 <= i < |s| => LowerByte(s[i]))
  }

  /** Lower-casing twice is lower-casing once, and it leaves a name without
      capitals alone. */
  lemma LowerNameIdempotent(s: Bytes)
    ensures LowerName(LowerName(s)) == LowerName(s)
    ensures (forall i :: 0 <= i < |s| ==> !IsUpper(s[i])) ==> LowerName(s) == s
  {
  }

  /** The key a texture is indexed under. */
  function Key(e: Entry): Bytes {
    LowerName(e.header.diffuseName)
  }

  // ---------------------------------------------------------------- the name index

  /** The index that assigning `map[key] = i` for i = 0, 1, ... builds: every
      key present maps to the LAST texture carrying it. */
  function BuildIndex(textures: seq<Entry>): (r: map<Bytes, nat>)
    ensures forall k :: k in r ==> r[k] < |textures| && Key(textures[r[k]]) == k
    ensures forall i :: 0 <= i < |textures| ==> Key(textures[i]) in r && r[Key(textures[i])] >= i
  {
    if |textures| == 0 then map[]
    else
      var n := |textures| - 1;
      var prefix := textures[..n];
      assert forall i :: 0 <= i < n ==> prefix[i] == textures[i];
      BuildIndex(prefix)[Key(textures[n]) := n]
  }

  /** The class invariant every public operation keeps. */
  predicate Consistent(a: Archive) {
    a.nameIndex == BuildIndex(a.textures)
  }

  /** What holds even after a rename through a descriptor has left the index
      stale: every position the index holds is a texture of the list. */
  predicate IndexInRange(a: Archive) {
    forall k :: k in a.nameIndex ==> a.nameIndex[k] < |a.textures|
  }

  /** The index depends on the textures' keys only. */
  lemma {:induction false} BuildIndexOfKeys(xs: seq<Entry>, ys: seq<Entry>)
    requires |xs| == |ys|
    requires forall i :: 0 <= i < |xs| ==> Key(xs[i]) == Key(ys[i])
    ensures BuildIndex(xs) == BuildIndex(ys)
  {
    if |xs| > 0 {
      var n := |xs| - 1;
      BuildIndexOfKeys(xs[..n], ys[..n]);
    }
  }

  /** The default-constructed dictionary: no textures, version unknown. */
  function EmptyArchive(): (a: Archive)
    ensures Consistent(a) && |a.textures| == 0 && a.gameVersion == Unknown
  {
    Archive([], map[], Unknown)
  }

  // ---------------------------------------------------------------- lookups

  /** getTexture: the descriptor at a position, or nothing past the end. */
  function GetTexture(a: Archive, i: nat): (r: Option<Header>)
    ensures r.Some? <==> i < |a.textures|
    ensures r.Some? ==> r.value == a.textures[i].header
  {
    if i < |a.textures| then Some(a.textures[i].header) else None
  }

  /** findTexture: case-insensitive lookup through the index. */
  function FindTexture(a: Archive, name: Bytes): (r: Option<Header>)
    requires IndexInRange(a)
    ensures r.Some? <==> LowerName(name) in a.nameIndex
    ensures Consistent(a) ==>
              (r.Some? <==> exists i :: 0 <= i < |a.textures| && Key(a.textures[i]) == LowerName(name))
    ensures Consistent(a) && r.Some? ==>
              exists i :: 0 <= i < |a.textures| && Key(a.textures[i]) == LowerName(name)
                          && r.value == a.textures[i].header
                          && forall j :: i < j < |a.textures| ==> Key(a.textures[j]) != LowerName(name)
  {
    var key := LowerName(name);
    if key in a.nameIndex then
      var i := a.nameIndex[key];
      Some(a.textures[i].header)
    else
      None
  }

  /** getTextureData: a copy of the bytes of the texture at a position (txdedit
      finds it by descriptor identity), or nothing. */
  function GetTextureData(a: Archive, i: nat): (r: Option<Bytes>)
    ensures r.Some? <==> i < |a.textures|
    ensures r.Some? ==> r.value == a.textures[i].data
  {
    if i < |a.textures| then Some(a.textures[i].data) else None
  }

  /** getOriginalDimensions for the descriptor h, found at position i (any
      i past the end when h is not one of the archive's): the recorded
      dimensions, or h's own as the fallback. */
  function GetOriginalDimensions(a: Archive, i: nat, h: Header): (r: (u16, u16))
    ensures i < |a.textures| ==> r == (a.textures[i].originalWidth, a.textures[i].originalHeight)
    ensures i >= |a.textures| ==> r == (h.width, h.height)
  {
    if i < |a.textures| then (a.textures[i].originalWidth, a.textures[i].originalHeight)
    else (h.width, h.height)
  }

  // ---------------------------------------------------------------- mutators

  /** The shared tail of addTexture and of the reader: index the key at the
      next position, then append. */
  function Append(a: Archive, e: Entry): (r: Archive)
    ensures r.textures == a.textures + [e]
    ensures r.gameVersion == a.gameVersion
    ensures Consistent(a) ==> Consistent(r)
  {
    Archive(a.textures + [e], a.nameIndex[Key(e) := |a.textures|], a.gameVersion)
  }

  /** addTexture: the given bytes, or (no bytes given) a zero buffer of the
      descriptor's computed size; the original dimensions are the
      descriptor's current ones. */
  function AddTexture(a: Archive, h: Header, data: Bytes): (r: Archive)
    ensures |r.textures| == |a.textures| + 1 && r.textures[..|a.textures|] == a.textures
    ensures r.textures[|a.textures|].header == h
    ensures |data| > 0 ==> r.textures[|a.textures|].data == data
    ensures |data| == 0 ==> r.textures[|a.textures|].data == Zeros(DataSize(h))
    ensures r.textures[|a.textures|].originalWidth == h.width && r.textures[|a.textures|].originalHeight == h.height
    ensures r.gameVersion == a.gameVersion
    ensures Consistent(a) ==> Consistent(r)
  {
    var buffer := if |data| > 0 then data else Zeros(DataSize(h));
    Append(a, Entry(h, buffer, h.width, h.height))
  }

  /** removeTexture(index): out of range does nothing; otherwise the texture
      goes and the index is rebuilt from scratch. */
  function RemoveTexture(a: Archive, i: nat): (r: Archive)
    ensures i >= |a.textures| ==> r == a
    ensures i < |a.textures| ==> r.textures == a.textures[..i] + a.textures[i + 1..] && Consistent(r)
    ensures r.gameVersion == a.gameVersion
  {
    if i >= |a.textures| then a
    else
      var rest := a.textures[..i] + a.textures[i + 1..];
      Archive(rest, BuildIndex(rest), a.gameVersion)
  }

  /** removeTexture(name): removes the texture the index holds for the
      lower-cased name, if any. */
  function RemoveTextureByName(a: Archive, name: Bytes): (r: Archive)
    ensures Consistent(a) ==> Consistent(r)
    ensures LowerName(name) in a.nameIndex && a.nameIndex[LowerName(name)] < |a.textures| ==> Consistent(r)
    ensures LowerName(name) !in a.nameIndex ==> r == a
    ensures LowerName(name) in a.nameIndex ==> r == RemoveTexture(a, a.nameIndex[LowerName(name)])
  {
    var key := LowerName(name);
    if key in a.nameIndex then RemoveTexture(a, a.nameIndex[key]) else a
  }

  /** setTextureData for the texture at position i (txdedit finds it by
      descriptor identity and does nothing when it is absent): the bytes are
      replaced and the original dimensions become the descriptor's. */
  function SetTextureData(a: Archive, i: nat, data: Bytes): (r: Archive)
    ensures i >= |a.textures| ==> r == a
    ensures |r.textures| == |a.textures| && r.nameIndex == a.nameIndex && r.gameVersion == a.gameVersion
    ensures forall j :: 0 <= j < |a.textures| && j != i ==> r.textures[j] == a.textures[j]
    ensures i < |a.textures| ==>
              r.textures[i] == Entry(a.textures[i].header, data, a.textures[i].header.width, a.textures[i].header.height)
    ensures Consistent(a) ==> Consistent(r)
  {
    if i >= |a.textures| then a
    else
      var e := a.textures[i];
      var textures := a.textures[i := Entry(e.header, data, e.header.width, e.header.height)];
      BuildIndexOfKeys(a.textures, textures);
      a.(textures := textures)
  }

  /** What editing a descriptor through the pointer getTexture returns
      does: the descriptor at position i changes and nothing else, the index
      included (applyTextureHeader, which would be the place to resync it,
      does nothing). */
  function EditHeader(a: Archive, i: nat, h: Header): (r: Archive)
    ensures i >= |a.textures| ==> r == a
    ensures |r.textures| == |a.textures| && r.nameIndex == a.nameIndex && r.gameVersion == a.gameVersion
    ensures forall j :: 0 <= j < |a.textures| && j != i ==> r.textures[j] == a.textures[j]
    ensures i < |a.textures| ==> r.textures[i] == a.textures[i].(header := h)
    ensures IndexInRange(a) ==> IndexInRange(r)
  {
    if i >= |a.textures| then a
    else a.(textures := a.textures[i := a.textures[i].(header := h)])
  }

  /** applyTextureHeader: nothing is synchronised. */
  function ApplyTextureHeader(a: Archive, i: nat): (r: Archive)
    ensures r == a
  {
    a
  }

  function SetGameVersion(a: Archive, v: GameVersion): (r: Archive)
    ensures r.gameVersion == v && r.(gameVersion := a.gameVersion) == a
  {
    a.(gameVersion := v)
  }

  // ---------------------------------------------------------------- game versions

  /** detectGameVersion: only the three full PC library words are recognised. */
  function DetectGameVersion(w: bv32): (v: GameVersion)
    ensures v != Unknown ==> w & 0xFFFF == 0xFFFF
    ensures v == Gta3 <==> w == 0x0C02_FFFF
    ensures v == GtaVC <==> w == 0x1003_FFFF
    ensures v == GtaSA <==> w == 0x1803_FFFF
  {
    var lower := w & 0xFFFF;
    var upper := (w >> 16) & 0xFFFF;
    if upper == 0x0C02 && lower == 0xFFFF then Gta3
    else if upper == 0x1003 && lower == 0xFFFF then GtaVC
    else if upper == 0x1803 && lower == 0xFFFF then GtaSA
    else Unknown
  }

  /** packGameVersion as written: a 16-bit "library version" in the low half
      of the word; an unknown version is written as San Andreas's. */
  function PackGameVersion(v: GameVersion): (w: bv32)
    ensures w >> 16 == 0
    ensures v == Unknown || v == GtaSA ==> w == 0x0C18
  {
    match v
    case Gta3 => (3 << 8) | (1 << 4) | 1
    case GtaVC => (3 << 8) | (4 << 4) | 3
    case GtaSA => (3 << 10) | (6 << 2)
    case Unknown => (3 << 10) | (6 << 2)
  }

  /** packGameVersion as evidently intended: the word detectGameVersion
      recognises for each game, San Andreas's for an unknown version. */
  function PackGameVersionCorrected(v: GameVersion): (w: bv32)
    ensures v == Unknown || v == GtaSA ==> w == 0x1803_FFFF
    ensures w & 0xFFFF == 0xFFFF
  {
    match v
    case Gta3 => 0x0C02_FFFF
    case GtaVC => 0x1003_FFFF
    case GtaSA | Unknown => 0x1803_FFFF
  }
}
