/**
 * Decoding of indexed images: every index byte selects a four-byte RGBA entry
 * of a palette table. One call also sums the colour channels of the decoded
 * pixels and, when index 255 means transparent, detects whether any decoded
 * pixel is transparent.
 */
module IndexedImages {
  import opened Io
  import opened PaletteTables
  import opened Palettes

  /** The colour sums are `uint32_t` accumulators: they wrap modulo 2^32. */
  const U32: nat := 0x1_0000_0000

  /**
   * The table a decode reads from under the given transparency mode: the
   * opaque table or the index-255-transparent one.
   */
  function Table(palette: Palette, transparency: PaletteTransparency): seq<byte>
    requires palette.Initialized()
  {
    if transparency == Opaque then palette.data.value.opaqueData else palette.data.value.index255TransparentData
  }

  /**
   * The entry an index selects. Its four bytes start at `4 * index`, so for
   * every 8-bit index they lie within the 1024 bytes of the table.
   */
  function Pixel(table: seq<byte>, index: byte): (p: seq<byte>)
    requires |table| == RgbaSize
    ensures |p| == 4
    ensures forall c :: 0 <= c < 4 ==> p[c] == table[4 * (index as int) + c]
  {
    table[4 * (index as int)..4 * (index as int) + 4]
  }

  /** The RGBA image of an index buffer: one four-byte pixel per index, in order. */
  function Decode(table: seq<byte>, indices: seq<byte>): (image: seq<byte>)
    requires |table| == RgbaSize
    ensures |image| == 4 * |indices|
  {
    if indices == [] then []
    else Decode(table, indices[..|indices| - 1]) + Pixel(table, indices[|indices| - 1])
  }

  /** Pixel `j` of the decoded image is the table entry that index `j` selects. */
  lemma {:induction false} DecodeAt(table: seq<byte>, indices: seq<byte>, j: nat)
    requires |table| == RgbaSize && j < |indices|
    ensures Decode(table, indices)[4 * j..4 * j + 4] == Pixel(table, indices[j])
  {
    var n := |indices|;
    var prefix := Decode(table, indices[..n - 1]);
    var last := Pixel(table, indices[n - 1]);
    assert Decode(table, indices) == prefix + last;
    if j < n - 1 {
      DecodeAt(table, indices[..n - 1], j);
      assert (prefix + last)[4 * j..4 * j + 4] == prefix[4 * j..4 * j + 4];
    } else {
      assert (prefix + last)[4 * j..4 * j + 4] == last;
    }
  }

  /**
   * The sum of channel `c` (0 red, 1 green, 2 blue) over the whole pixels of
   * an RGBA image.
   */
  function ChannelSum(image: seq<byte>, c: nat): nat
    requires c < 4
  {
    if |image| < 4 then 0 else ChannelSum(image[..|image| - 4], c) + image[|image| - 4 + c] as nat
  }

  /** The bitwise AND of the alpha bytes of the whole pixels of an RGBA image, starting from 0xFF. */
  function AlphaAnd(image: seq<byte>): byte
  {
    if |image| < 4 then 0xFF else BitAnd(AlphaAnd(image[..|image| - 4]), image[|image| - 1])
  }

  /** A channel sum is at most 255 per pixel. */
  lemma {:induction false} ChannelSumBound(image: seq<byte>, c: nat)
    requires c < 4
    ensures 4 * ChannelSum(image, c) <= 255 * |image|
  {
    if |image| >= 4 {
      ChannelSumBound(image[..|image| - 4], c);
    }
  }

  /** Up to 16843009 pixels (255 * pixels < 2^32) the 32-bit colour sums never wrap. */
  lemma SumsDoNotWrap(image: seq<byte>, c: nat)
    requires c < 4
    requires 255 * |image| < 4 * U32
    ensures ChannelSum(image, c) % U32 == ChannelSum(image, c)
  {
    ChannelSumBound(image, c);
  }

  /** Appending a pixel adds its channel to the sum. */
  lemma ChannelSumAppend(image: seq<byte>, pixel: seq<byte>, c: nat)
    requires |pixel| == 4 && c < 4
    ensures ChannelSum(image + pixel, c) == ChannelSum(image, c) + pixel[c] as nat
  {
    var whole := image + pixel;
    assert whole[..|whole| - 4] == image;
    assert whole[|whole| - 4 + c] == pixel[c];
  }

  /** Appending a pixel ANDs its alpha into the alpha AND. */
  lemma AlphaAndAppend(image: seq<byte>, pixel: seq<byte>)
    requires |pixel| == 4
    ensures AlphaAnd(image + pixel) == BitAnd(AlphaAnd(image), pixel[3])
  {
    var whole := image + pixel;
    assert whole[..|whole| - 4] == image;
    assert whole[|whole| - 1] == pixel[3];
  }

  /**
   * Pixel `j` decoded with a palette built from 768 RGB bytes is the RGB triple
   * that index `j` selects with alpha 0xFF, except that in index-255-transparent
   * mode index 255 decodes with alpha 0.
   */
  lemma DecodedPixel(rgb: seq<byte>, transparency: PaletteTransparency, indices: seq<byte>, j: nat)
    requires |rgb| == RgbSize && j < |indices|
    ensures var table := Table(Palette(Some(TablesOf(rgb))), transparency);
      Decode(table, indices)[4 * j..4 * j + 4] ==
      if transparency == Index255Transparent && indices[j] == 255 then [rgb[765], rgb[766], rgb[767], 0]
      else RgbaEntry(rgb, indices[j] as nat)
  {
    var d := TablesOf(rgb);
    var index := indices[j];
    if transparency == Opaque {
      OpaqueEntry(rgb, index as nat);
      DecodeEntry(d.opaqueData, indices, j, RgbaEntry(rgb, index as nat));
    } else {
      TransparentEntry(rgb, index as nat);
      DecodeEntry(d.index255TransparentData, indices, j,
        if index == 255 then [rgb[765], rgb[766], rgb[767], 0] else RgbaEntry(rgb, index as nat));
    }
  }

  /** Pixel `j` of the decoded image is whatever entry index `j` selects. */
  lemma DecodeEntry(table: seq<byte>, indices: seq<byte>, j: nat, entry: seq<byte>)
    requires |table| == RgbaSize && j < |indices|
    requires table[4 * (indices[j] as int)..4 * (indices[j] as int) + 4] == entry
    ensures Decode(table, indices)[4 * j..4 * j + 4] == entry
  {
    DecodeAt(table, indices, j);
  }

  /** Decoding one more index adds the selected entry's channel to the sum. */
  lemma DecodeChannelSumLast(table: seq<byte>, indices: seq<byte>, c: nat)
    requires |table| == RgbaSize && indices != [] && c < 4
    ensures var n := |indices|;
      ChannelSum(Decode(table, indices), c) ==
      ChannelSum(Decode(table, indices[..n - 1]), c) + table[4 * (indices[n - 1] as int) + c] as nat
  {
    var n := |indices|;
    var prefix, pixel := Decode(table, indices[..n - 1]), Pixel(table, indices[n - 1]);
    assert Decode(table, indices) == prefix + pixel;
    assert pixel[c] == table[4 * (indices[n - 1] as int) + c];
    ChannelSumAppend(prefix, pixel, c);
  }

  /** Decoding one more index ANDs the selected entry's alpha into the alpha AND. */
  lemma DecodeAlphaAndLast(table: seq<byte>, indices: seq<byte>)
    requires |table| == RgbaSize && indices != []
    ensures var n := |indices|;
      AlphaAnd(Decode(table, indices)) ==
      BitAnd(AlphaAnd(Decode(table, indices[..n - 1])), table[4 * (indices[n - 1] as int) + 3])
  {
    var n := |indices|;
    var prefix, pixel := Decode(table, indices[..n - 1]), Pixel(table, indices[n - 1]);
    assert Decode(table, indices) == prefix + pixel;
    AlphaAndAppend(prefix, pixel);
  }

  /** An image whose indices all equal `k` sums, per channel, `k`'s entry once per pixel. */
  lemma {:induction false} UniformChannelSum(table: seq<byte>, indices: seq<byte>, k: byte, c: nat)
    requires |table| == RgbaSize && c < 4
    requires forall j :: 0 <= j < |indices| ==> indices[j] == k
    ensures ChannelSum(Decode(table, indices), c) == |indices| * table[4 * (k as int) + c] as nat
  {
    if indices != [] {
      var n := |indices|;
      var v := table[4 * (k as int) + c] as nat;
      DecodeChannelSumLast(table, indices, c);
      UniformChannelSum(table, indices[..n - 1], k, c);
      assert indices[n - 1] == k;
      assert ChannelSum(Decode(table, indices), c) == (n - 1) * v + v;
      MulSucc(n - 1, v);
    }
  }

  /** In the transparent table of a well-formed palette only entry 255 has alpha 0; all others have 0xFF. */
  lemma TransparentAlpha(d: PaletteData, index: byte)
    requires WellFormed(d)
    ensures d.index255TransparentData[4 * (index as int) + 3] == if index == 255 then 0 else 0xFF
  {
    assert Alpha(d.opaqueData, index as int) == 0xFF;
  }

  /**
   * Every entry of the table a mode selects has alpha 0xFF, except entry 255
   * in index-255-transparent mode, whose alpha is 0.
   */
  lemma TableAlpha(palette: Palette, transparency: PaletteTransparency, i: nat)
    requires palette.Initialized() && palette.Valid() && i < 256
    ensures Alpha(Table(palette, transparency), i) ==
      if transparency == Index255Transparent && i == 255 then 0 else 0xFF
  {
    if transparency == Index255Transparent {
      TransparentAlpha(palette.data.value, i as byte);
    }
  }

  /**
   * Decoding one more index whose entry has alpha 0 (index 255) or 0xFF (any
   * other) clears the alpha AND or leaves it as it was.
   */
  lemma AlphaAndLastEntry(table: seq<byte>, indices: seq<byte>)
    requires |table| == RgbaSize && indices != []
    requires var last := indices[|indices| - 1];
      table[4 * (last as int) + 3] == if last == 255 then 0 else 0xFF
    ensures var n := |indices|;
      AlphaAnd(Decode(table, indices)) ==
      if indices[n - 1] == 255 then 0 else AlphaAnd(Decode(table, indices[..n - 1]))
  {
    DecodeAlphaAndLast(table, indices);
    BitAndUnits(AlphaAnd(Decode(table, indices[..|indices| - 1])));
  }

  lemma InLast(indices: seq<byte>, x: byte)
    requires indices != []
    ensures var n := |indices|; (x in indices) == (x in indices[..n - 1] || indices[n - 1] == x)
  {
    var n := |indices|;
    assert indices == indices[..n - 1] + [indices[n - 1]];
  }

  /**
   * Decoded with the index-255-transparent table of a well-formed palette, the
   * AND of the alpha bytes is 0 if some index is 255 and 0xFF otherwise.
   */
  lemma {:induction false} AlphaAndTransparent(d: PaletteData, indices: seq<byte>)
    requires WellFormed(d)
    ensures AlphaAnd(Decode(d.index255TransparentData, indices)) == if 255 in indices then 0 else 0xFF
  {
    if indices != [] {
      TransparentAlpha(d, indices[|indices| - 1]);
      AlphaAndLastEntry(d.index255TransparentData, indices);
      InLast(indices, 255);
      AlphaAndTransparent(d, indices[..|indices| - 1]);
    }
  }

  /** Extending an image prefix by one pixel adds that pixel's channel to the sum. */
  lemma ChannelSumStep(image: seq<byte>, i: nat, c: nat)
    requires 4 * i + 4 <= |image| && c < 4
    ensures ChannelSum(image[..4 * i + 4], c) == ChannelSum(image[..4 * i], c) + image[4 * i + c] as nat
  {
    assert image[..4 * i + 4] == image[..4 * i] + image[4 * i..4 * i + 4];
    ChannelSumAppend(image[..4 * i], image[4 * i..4 * i + 4], c);
  }

  /** Extending an image prefix by one pixel ANDs that pixel's alpha into the alpha AND. */
  lemma AlphaAndStep(image: seq<byte>, i: nat)
    requires 4 * i + 4 <= |image|
    ensures AlphaAnd(image[..4 * i + 4]) == BitAnd(AlphaAnd(image[..4 * i]), image[4 * i + 3])
  {
    assert image[..4 * i + 4] == image[..4 * i] + image[4 * i..4 * i + 4];
    AlphaAndAppend(image[..4 * i], image[4 * i..4 * i + 4]);
  }

  lemma MulSucc(m: nat, v: nat)
    ensures m * v + v == (m + 1) * v
  {
  }

  /** One step of a 32-bit channel accumulator keeps it equal to the wrapped sum of the prefix. */
  lemma WrappedSumStep(image: seq<byte>, i: nat, c: nat, sum: nat)
    requires 4 * i + 4 <= |image| && c < 4
    requires sum == ChannelSum(image[..4 * i], c) % U32
    ensures (sum + image[4 * i + c] as nat) % U32 == ChannelSum(image[..4 * (i + 1)], c) % U32
  {
    ChannelSumStep(image, i, c);
    assert 4 * (i + 1) == 4 * i + 4;
    AddMod(ChannelSum(image[..4 * i], c), image[4 * i + c] as nat);
  }

  lemma AddMod(a: nat, x: nat)
    ensures (a % U32 + x) % U32 == (a + x) % U32
  {
  }

  /** Copies the four bytes of entry `index` of the table to bytes `at .. at + 4` of `dest`. */
  method CopyEntry(dest: array<byte>, at: nat, table: seq<byte>, index: byte)
    requires |table| == RgbaSize && at + 4 <= dest.Length
    modifies dest
    ensures dest[..at] == old(dest[..at])
    ensures dest[at..at + 4] == Pixel(table, index)
    ensures dest[at + 4..] == old(dest[at + 4..])
  {
    var from := 4 * (index as int);
    dest[at] := table[from];
    dest[at + 1] := table[from + 1];
    dest[at + 2] := table[from + 2];
    dest[at + 3] := table[from + 3];
  }

  /** The pixel-writing loop: decodes `pixelCount` indices of `source` from `start` into `dest`. */
  method WritePixels(source: seq<byte>, start: nat, pixelCount: nat, table: seq<byte>, dest: array<byte>)
    requires start + pixelCount <= |source| && |table| == RgbaSize && 4 * pixelCount <= dest.Length
    modifies dest
    ensures dest[..4 * pixelCount] == Decode(table, source[start..start + pixelCount])
    ensures dest[4 * pixelCount..] == old(dest[4 * pixelCount..])
  {
    ghost var indices := source[start..start + pixelCount];
    var i := 0;
    while i < pixelCount
      invariant 0 <= i <= pixelCount
      invariant dest[..4 * i] == Decode(table, indices[..i])
      invariant dest[4 * pixelCount..] == old(dest[4 * pixelCount..])
    {
      var index := source[start + i];
      CopyEntry(dest, 4 * i, table, index);
      assert dest[..4 * i + 4] == dest[..4 * i] + dest[4 * i..4 * i + 4];
      assert indices[..i + 1] == indices[..i] + [index];
      i := i + 1;
    }
    assert indices[..pixelCount] == indices;
  }

  /** The colour-sum loop: the red, green and blue sums of the first `pixelCount` pixels, each modulo 2^32. */
  method SumColors(image: array<byte>, pixelCount: nat) returns (colorSum: seq<nat>)
    requires 4 * pixelCount <= image.Length
    ensures var pixels := image[..4 * pixelCount];
      colorSum == [ChannelSum(pixels, 0) % U32, ChannelSum(pixels, 1) % U32, ChannelSum(pixels, 2) % U32]
  {
    ghost var pixels := image[..];
    var sum := new nat[3](_ => 0);
    var i := 0;
    while i < pixelCount
      invariant 0 <= i <= pixelCount
      invariant sum[0] == ChannelSum(pixels[..4 * i], 0) % U32
      invariant sum[1] == ChannelSum(pixels[..4 * i], 1) % U32
      invariant sum[2] == ChannelSum(pixels[..4 * i], 2) % U32
    {
      WrappedSumStep(pixels, i, 0, sum[0]);
      WrappedSumStep(pixels, i, 1, sum[1]);
      WrappedSumStep(pixels, i, 2, sum[2]);
      sum[0] := (sum[0] + image[4 * i] as nat) % U32;
      sum[1] := (sum[1] + image[4 * i + 1] as nat) % U32;
      sum[2] := (sum[2] + image[4 * i + 2] as nat) % U32;
      i := i + 1;
    }
    assert pixels[..4 * pixelCount] == image[..4 * pixelCount];
    colorSum := sum[..];
  }

  /** The transparency loop: the AND of the alpha bytes of the first `pixelCount` pixels. */
  method AndAlpha(image: array<byte>, pixelCount: nat) returns (andAlpha: byte)
    requires 4 * pixelCount <= image.Length
    ensures andAlpha == AlphaAnd(image[..4 * pixelCount])
  {
    andAlpha := 0xFF;
    var i := 0;
    while i < pixelCount
      invariant 0 <= i <= pixelCount
      invariant andAlpha == AlphaAnd(image[..][..4 * i])
    {
      AlphaAndStep(image[..], i);
      andAlpha := BitAnd(andAlpha, image[4 * i + 3]);
      i := i + 1;
    }
    assert image[..][..4 * pixelCount] == image[..4 * pixelCount];
  }

  /**
   * The transparency check: a decoded pixel is transparent exactly when the
   * AND of all alpha bytes differs from 0xFF.
   */
  method DetectTransparency(image: array<byte>, pixelCount: nat, ghost d: PaletteData, ghost indices: seq<byte>)
    returns (hasTransparency: bool)
    requires WellFormed(d) && 4 * pixelCount <= image.Length
    requires image[..4 * pixelCount] == Decode(d.index255TransparentData, indices)
    ensures hasTransparency == (AlphaAnd(image[..4 * pixelCount]) != 0xFF)
    ensures hasTransparency == (255 in indices)
  {
    var andAlpha := AndAlpha(image, pixelCount);
    hasTransparency := andAlpha != 0xFF;
    AlphaAndTransparent(d, indices);
  }

  /**
   * Decodes `pixelCount` indices read at the reader's position into the first
   * `4 * pixelCount` bytes of `rgbaImage`, moving the reader past them. Returns
   * whether a transparent pixel was decoded (never in opaque mode) and the
   * 32-bit red, green and blue sums of the decoded pixels.
   */
  method IndexedToRgba(palette: Palette, reader: Reader, pixelCount: nat, rgbaImage: array<byte>,
                       transparency: PaletteTransparency)
    returns (hasTransparency: bool, colorSum: seq<nat>)
    requires palette.Initialized() && palette.Valid()
    requires reader.Valid() && reader.CanRead(pixelCount)
    requires 4 * pixelCount <= rgbaImage.Length
    modifies reader, rgbaImage
    ensures reader.Valid() && reader.position == old(reader.position) + pixelCount
    ensures var indices := reader.bytes[old(reader.position)..reader.position];
      && rgbaImage[..4 * pixelCount] == Decode(Table(palette, transparency), indices)
      && rgbaImage[4 * pixelCount..] == old(rgbaImage[4 * pixelCount..])
      && hasTransparency == (transparency == Index255Transparent && 255 in indices)
    ensures var image := rgbaImage[..4 * pixelCount];
      colorSum == [ChannelSum(image, 0) % U32, ChannelSum(image, 1) % U32, ChannelSum(image, 2) % U32]
  {
    var table := Table(palette, transparency);
    var start := reader.position;
    ghost var indices := reader.bytes[start..start + pixelCount];
    reader.SeekForward(pixelCount);

    // Write the RGBA pixels.
    WritePixels(reader.bytes, start, pixelCount, table, rgbaImage);

    // Sum the colour channels.
    colorSum := SumColors(rgbaImage, pixelCount);

    // Check for transparency.
    hasTransparency := false;
    if transparency == Index255Transparent {
      hasTransparency := DetectTransparency(rgbaImage, pixelCount, palette.data.value, indices);
    }
    assert indices == reader.bytes[old(reader.position)..reader.position];
  }
}
