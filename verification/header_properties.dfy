/** Properties of the descriptor's size and mipmap-level arithmetic
    (core/TXDTextureHeader.cpp). */
module HeaderProperties {
  import opened TxdTypes
  import opened TextureHeader

  lemma DivideTwice(d: nat, p: nat)
    requires p >= 1
    ensures d / (2 * p) == (d / p) / 2
  {
    var q := d / p;
    var r := d % p;
    assert d == q * p + r;
    var q2 := q / 2;
    var b := q % 2;
    assert q == 2 * q2 + b;
    assert d == q2 * (2 * p) + (b * p + r);
    assert 0 <= b * p + r < 2 * p;
    DivisionUnique(d, 2 * p, q2, b * p + r);
  }

  lemma DivisionUnique(d: nat, p: nat, q: nat, r: nat)
    requires p >= 1 && r < p && d == q * p + r
    ensures d / p == q
  {
    var q' := d / p;
    var r' := d % p;
    assert d == q' * p + r';
    assert (q - q') * p == r' - r;
    MultipleWithinOneIsZero(q - q', p, r' - r);
  }

  lemma MultipleWithinOneIsZero(k: int, p: int, e: int)
    requires p >= 1 && -p < e < p && k * p == e
    ensures k == 0
  {
  }

  /** Halving the side `level` times is txdedit's division by 2^level. */
  lemma {:induction false} LevelDimensionIsQuotient(d: nat, level: nat)
    ensures LevelDimension(d, level) == d / Pow2(level)
  {
    if level > 0 {
      LevelDimensionIsQuotient(d, level - 1);
      DivideTwice(d, Pow2(level - 1));
    }
  }

  /** Each level is half the previous one, rounded down. */
  lemma LevelDimensionHalves(d: nat, level: nat)
    ensures LevelDimension(d, level + 1) == LevelDimension(d, level) / 2
  {
  }

  lemma {:induction false} LevelDimensionNonIncreasing(d: nat, i: nat, j: nat)
    requires i <= j
    ensures LevelDimension(d, j) <= LevelDimension(d, i)
  {
    if i < j {
      LevelDimensionNonIncreasing(d, i, j - 1);
      LevelDimensionHalves(d, j - 1);
    }
  }

  /** A side stays at least m at a level exactly when m * 2^level fits in it. */
  lemma {:induction false} LevelDimensionAtLeast(d: nat, m: nat, level: nat)
    ensures LevelDimension(d, level) >= m <==> m * Pow2(level) <= d
    decreases level
  {
    if level > 0 {
      LevelDimensionAtLeast(d, 2 * m, level - 1);
      DoubleEitherFactor(m, Pow2(level - 1));
    }
  }

  lemma DoubleEitherFactor(m: nat, p: nat)
    ensures m * (2 * p) == (2 * m) * p
  {
  }

  lemma ProductMonotone(a: nat, b: nat, a': nat, b': nat)
    requires a' <= a && b' <= b
    ensures a' * b' <= a * b
  {
    assert a' * b' <= a * b' <= a * b;
  }

  /** Every mipmap level is no larger than the one before it. */
  lemma MipmapDataSizeNonIncreasing(h: Header, level: nat)
    ensures MipmapDataSize(h, level + 1) <= MipmapDataSize(h, level)
  {
    LevelDimensionHalves(h.width, level);
    LevelDimensionHalves(h.height, level);
    var w0, h0 := MipmapDimension(h, h.width, level), MipmapDimension(h, h.height, level);
    var w1, h1 := MipmapDimension(h, h.width, level + 1), MipmapDimension(h, h.height, level + 1);
    ProductMonotone(w0, h0, w1, h1);
    NaturalProduct(w0, h0);
    NaturalProduct(w1, h1);
    ScaledSizesMonotone(w0 * h0, w1 * h1, BytesPerPixel(h));
  }

  lemma ScaledSizesMonotone(p0: nat, p1: nat, bpp: nat)
    requires p1 <= p0
    ensures p1 * bpp <= p0 * bpp && p1 / 2 <= p0 / 2
  {
    ProductMonotone(p0, bpp, p1, bpp);
  }

  /** For uncompressed data, a level past the smaller side has no bytes: the
      side is not clamped up to 1. */
  lemma UncompressedLevelPastSmallestSideIsEmpty(h: Header, level: nat)
    requires h.compression == NoCompression
    requires Pow2(level) > h.width || Pow2(level) > h.height
    ensures MipmapDataSize(h, level) == 0
  {
    var w, ht := LevelDimension(h.width, level), LevelDimension(h.height, level);
    LevelDimensionIsQuotient(h.width, level);
    LevelDimensionIsQuotient(h.height, level);
    assert w == 0 || ht == 0 by {
      if Pow2(level) > h.width {
        SmallQuotient(h.width, Pow2(level));
      } else {
        SmallQuotient(h.height, Pow2(level));
      }
    }
    ZeroProduct(w, ht, BytesPerPixel(h));
  }

  /** The worked sizes of a 64x64 DXT1 texture: 2048 bytes at level 0 and 128
      at level 2 (16x16); and a 4x4 DXT1 level 1 is still a 4x4 block. */
  lemma Dxt1SizeExamples(h: Header)
    requires h.compression == Dxt1 && h.width == 64 && h.height == 64
    ensures MipmapDataSize(h, 0) == 2048
    ensures MipmapDataSize(h, 2) == 128
    ensures MipmapDataSize(h.(width := 4, height := 4), 1) == 8
  {
    assert Pow2(2) == 4;
  }

  lemma {:induction false} MipmapsSizeNonDecreasing(h: Header, i: nat, j: nat)
    requires i <= j
    ensures MipmapsSize(h, i) <= MipmapsSize(h, j)
  {
    if i < j {
      MipmapsSizeNonDecreasing(h, i, j - 1);
    }
  }

  /** The bytes of level `level` (after the earlier levels) lie within the
      mipmap part of computeDataSize when the level is below the count. */
  lemma LevelRegionWithinData(h: Header, level: nat)
    requires level < h.mipmapCount
    ensures MipmapsSize(h, level) + MipmapDataSize(h, level) <= MipmapsSize(h, h.mipmapCount)
    ensures MipmapsSize(h, level) + MipmapDataSize(h, level) <= DataSize(h)
  {
    MipmapsSizeNonDecreasing(h, level + 1, h.mipmapCount);
    assert MipmapsSize(h, level + 1) == MipmapsSize(h, level) + MipmapDataSize(h, level);
  }

  /** For a side d >= m, level `level` keeps it at least m exactly when the
      level does not exceed the truncated log2(d / m). */
  lemma {:induction false} LevelAtLeastIffBelowLog(d: nat, m: nat, level: nat)
    requires 1 <= m <= d
    ensures LevelDimension(d, level) >= m <==> level <= TruncatedLog2Ratio(d, m)
  {
    LevelDimensionAtLeast(d, m, level);
    var k := FloorLog2(d / m);
    assert TruncatedLog2Ratio(d, m) == k;
    PowerFitsIffBelowLog(d, m, level);
  }

  /** m * 2^level <= d exactly when level <= floor(log2(d / m)). */
  lemma PowerFitsIffBelowLog(d: nat, m: nat, level: nat)
    requires 1 <= m <= d
    ensures m * Pow2(level) <= d <==> level <= FloorLog2(d / m)
  {
    if level <= FloorLog2(d / m) {
      PowerFitsBelowLog(d, m, level);
    } else {
      PowerExceedsAboveLog(d, m, level);
    }
  }

  lemma PowerFitsBelowLog(d: nat, m: nat, level: nat)
    requires 1 <= m <= d && level <= FloorLog2(d / m)
    ensures m * Pow2(level) <= d
  {
    var q := d / m;
    Pow2Monotone(level, FloorLog2(q));
    QuotientBounds(d, m);
    ScaledBelow(m, Pow2(level), q, d);
  }

  lemma PowerExceedsAboveLog(d: nat, m: nat, level: nat)
    requires 1 <= m <= d && level > FloorLog2(d / m)
    ensures m * Pow2(level) > d
  {
    var q := d / m;
    Pow2Monotone(FloorLog2(q) + 1, level);
    QuotientBounds(d, m);
    ScaledAbove(m, Pow2(level), q, d);
  }

  lemma QuotientBounds(d: nat, m: nat)
    requires m >= 1
    ensures m * (d / m) <= d < m * (d / m) + m
  {
  }

  lemma ScaledBelow(m: nat, p: nat, q: nat, d: nat)
    requires p <= q && m * q <= d
    ensures m * p <= d
  {
    ProductMonotone(m, q, m, p);
  }

  lemma ScaledAbove(m: nat, p: nat, q: nat, d: nat)
    requires q + 1 <= p && d < m * q + m
    ensures m * p > d
  {
    ProductMonotone(m, p, m, q + 1);
    assert m * (q + 1) == m * q + m;
  }

  lemma SmallQuotient(d: nat, p: nat)
    requires p > d
    ensures d / p == 0
  {
  }

  lemma ZeroProduct(a: nat, b: nat, c: nat)
    requires a == 0 || b == 0
    ensures a * b * c == 0
  {
  }

  /** calculateMaximumMipmapLevel, when both sides reach the minimum, is the
      largest level at which both sides are still at least the minimum. */
  lemma MaxMipmapLevelIsLargestLevel(h: Header)
    requires h.width >= MinBlockDimension(h.compression) && h.height >= MinBlockDimension(h.compression)
    ensures MaxMipmapLevel(h) >= 0
    ensures LevelDimension(h.width, MaxMipmapLevel(h)) >= MinBlockDimension(h.compression)
    ensures LevelDimension(h.height, MaxMipmapLevel(h)) >= MinBlockDimension(h.compression)
    ensures LevelDimension(h.width, MaxMipmapLevel(h) + 1) < MinBlockDimension(h.compression)
            || LevelDimension(h.height, MaxMipmapLevel(h) + 1) < MinBlockDimension(h.compression)
  {
    var m := MinBlockDimension(h.compression);
    var l := MaxMipmapLevel(h);
    LevelAtLeastIffBelowLog(h.width, m, l);
    LevelAtLeastIffBelowLog(h.height, m, l);
    LevelAtLeastIffBelowLog(h.width, m, l + 1);
    LevelAtLeastIffBelowLog(h.height, m, l + 1);
  }

  /** The documented cases: 256x256 block-compressed gives 6, 4x4 gives 0, a
      side of 3 still gives 0 (the logarithm is truncated toward zero) and a
      side of 2 gives a negative level. */
  lemma MaxMipmapLevelExamples(h: Header)
    requires h.compression == Dxt1
    ensures MaxMipmapLevel(h.(width := 256, height := 256)) == 6
    ensures MaxMipmapLevel(h.(width := 4, height := 4)) == 0
    ensures MaxMipmapLevel(h.(width := 3, height := 64)) == 0
    ensures MaxMipmapLevel(h.(width := 2, height := 64)) < 0
  {
    TruncatedLog2RatioValues();
    assert MinBlockDimension(Dxt1) == 4;
  }

  lemma FloorLog2Values()
    ensures FloorLog2(1) == 0 && FloorLog2(2) == 1 && FloorLog2(4) == 2 && FloorLog2(8) == 3
    ensures FloorLog2(16) == 4 && FloorLog2(32) == 5 && FloorLog2(64) == 6
  {
    assert FloorLog2(1) == 0;
    assert FloorLog2(2) == 1;
    assert FloorLog2(4) == 2;
    assert FloorLog2(8) == 3;
    assert FloorLog2(16) == 4;
    assert FloorLog2(32) == 5;
  }

  lemma TruncatedLog2RatioValues()
    ensures TruncatedLog2Ratio(256, 4) == 6 && TruncatedLog2Ratio(64, 4) == 4
    ensures TruncatedLog2Ratio(4, 4) == 0 && TruncatedLog2Ratio(3, 4) == 0 && TruncatedLog2Ratio(2, 4) == -1
  {
    FloorLog2Values();
    assert 256 / 4 == 64 && 64 / 4 == 16 && 4 / 4 == 1 && 4 / 3 == 1 && 4 / 2 == 2;
  }

  /** After fixMipmapCount every remaining level of a texture whose sides
      reach the minimum still has both sides at least the minimum. */
  lemma FixMipmapCountKeepsLevelsAboveMinimum(h: Header, level: nat)
    requires h.width >= MinBlockDimension(h.compression) && h.height >= MinBlockDimension(h.compression)
    requires level < FixMipmapCount(h).mipmapCount
    ensures LevelDimension(h.width, level) >= MinBlockDimension(h.compression)
    ensures LevelDimension(h.height, level) >= MinBlockDimension(h.compression)
  {
    var m := MinBlockDimension(h.compression);
    MaxMipmapLevelIsLargestLevel(h);
    assert level <= MaxMipmapLevel(h);
    LevelAtLeastIffBelowLog(h.width, m, level);
    LevelAtLeastIffBelowLog(h.height, m, level);
  }

  /** The inline setters perform no check: resizing a valid descriptor keeps
      it valid exactly when the new sides pass the dimension test, and the
      mipmap count is stored whatever the maximum level. */
  lemma UncheckedSettersSkipInvariant(h: Header, w: u16, ht: u16, n: u8)
    requires Valid(h)
    ensures Valid(SetRasterSize(h, w, ht)) <==>
              2 * w > MinBlockDimension(h.compression) && 2 * ht > MinBlockDimension(h.compression)
    ensures SetMipmapCount(h, n).mipmapCount == n && Valid(SetMipmapCount(h, n))
  {
  }
}
