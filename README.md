# TrenchBroom palette codec, modelled in Dafny

This project models TrenchBroom's palette component: `Assets::Palette` and the
private `PaletteData` it shares. The component has three parts.

- **Table construction** (`makeData`). 768 bytes of RGB source (256 triples)
  become two 1024-byte RGBA tables:
  - the opaque table, in which every entry is (R, G, B, 255);
  - the index-255-transparent table, which is a copy of the opaque table
    with its last byte (entry 255's alpha) set to 0.
- **Loading.** `loadFile` lower-cases the file extension and dispatches:
  - `lmp`: the whole file is the source;
  - `pcx`: the last 768 bytes of the file are the source;
  - `bmp`: the source comes from the BMP image decoder.

  `fromRaw` reads the source from a reader. A palette that has not been
  loaded has no tables (`initialized()` is false).
- **Indexed-to-RGBA decode** (`indexedToRgba`). It reads `pixelCount` index
  bytes at a reader's position and copies each selected 4-byte entry into the
  destination buffer. It also sums the red, green and blue channels into
  32-bit accumulators. In `Index255Transparent` mode it ANDs the alpha bytes
  together to find out whether any pixel is transparent.

The Dafny modules follow that split:

- `Io` holds:
  - the byte type;
  - the errors that reach callers: `AssetException`, a failed `ensure`, and a
    read past the end;
  - `Reader`, a class holding a fixed window of bytes and a read position
    that its methods move.
- `PaletteTables` holds:
  - `PaletteData`;
  - `TablesOf`, which is what the tables are;
  - `MakeData`, the construction loop, proved to build exactly `TablesOf`.
- `Palettes` holds:
  - `PaletteTransparency` (`Opaque` or `Index255Transparent`);
  - the `Palette` value, whose tables are an `Option`, so `Initialized()` is
    `initialized()`;
  - `FromBytes`, which is what constructing a palette yields;
  - the constructor `New`;
  - the four loaders, and `LoadFile` with its extension dispatch.
- `IndexedImages` holds:
  - the specification functions `Decode`, `ChannelSum` and `AlphaAnd`;
  - the lemmas about them;
  - the three loops of `indexedToRgba` as methods over `array<byte>`;
  - `IndexedToRgba`, which ties them together and moves the reader.

The main results are these:

- The tables hold exactly the entries the RGB source gives, and the
  transparent table differs from the opaque one only in entry 255's alpha.
- Decoding copies, for every pixel, the entry its index selects. Every read
  stays within the 1024 bytes of the table.
- The transparency result is false in opaque mode. In transparent mode it is
  true exactly when the alpha AND is not 0xFF, which happens exactly when
  some index is 255.
- The colour sums are the 32-bit wrapped channel sums of the decoded image.
  They cannot wrap while 255 times the pixel count is below 2^32.

## Model

| member | source | states |
|---|---|---|
| PaletteTables.OpaquePrefix | common/src/Assets/Palette.cpp:50-59 | After n iterations the opaque table has 4n bytes, and every entry pushed so far has alpha 0xFF |
| PaletteTables.TablesOf | common/src/Assets/Palette.cpp:47-63 | The tables built from 768 bytes are well formed: both are 1024 bytes, every opaque entry has alpha 0xFF, and the transparent table equals the opaque one at every byte except byte 1023, which is 0 |
| PaletteTables.OpaquePrefixEntry | common/src/Assets/Palette.cpp:50-59 | Entry i pushed by the loop is (data[3i], data[3i+1], data[3i+2], 0xFF) |
| PaletteTables.OpaqueEntry | common/src/Assets/Palette.cpp:48-59 | The opaque table has 1024 bytes, and its entry i is (data[3i], data[3i+1], data[3i+2], 0xFF) for every i < 256 |
| PaletteTables.TransparentEntry | common/src/Assets/Palette.cpp:61-63 | The transparent table has 1024 bytes; entry i is the opaque entry for i < 255, and entry 255 is (data[765], data[766], data[767], 0) |
| PaletteTables.MakeData | common/src/Assets/Palette.cpp:44-66 | With exactly 768 bytes the push loop and the copy-then-clear build exactly the well-formed tables; any other length fails the size check with "expected 768 bytes" |
| PaletteTables.WellFormedIsBuilt | common/src/Assets/Palette.cpp:44-66 | Construction reaches every well-formed pair of tables: such a pair is exactly what building from the RGB bytes read back from its opaque table yields |
| Palettes.Uninitialized | common/src/Assets/Palette.cpp:69 | A default-constructed palette is not initialized |
| Palettes.FromBytes | common/src/Assets/Palette.cpp:71-72 | Construction succeeds exactly when the source has 768 bytes; the palette is then initialized and holds the tables of the source; otherwise it fails with the size check's error |
| Palettes.InitializedIffConstructed | common/src/Assets/Palette.cpp:119-121 | For every valid palette, `Initialized()` (`initialized()`) holds exactly when some palette source constructs that palette, and fails exactly for the default-constructed palette |
| Palettes.New | common/src/Assets/Palette.cpp:71-72 | The constructor, which runs the table construction, yields exactly `FromBytes` |
| Palettes.ToLower | common/src/Assets/Palette.cpp:78 | Lower-casing keeps the length, maps each of 'A'..'Z' to its lower-case letter and leaves every other character unchanged |
| Palettes.LoadFailure | common/src/Assets/Palette.cpp:86-89 | The asset error's message is "Could not load palette file '", then the path, then "': ", then the reason (the unknown-format text or the file system's message) |
| Palettes.BmpPaletteSource | common/src/Assets/Palette.cpp:109 | The palette source of a BMP is its embedded palette when it has one and its RGB pixel data otherwise |
| Palettes.LoadFile | common/src/Assets/Palette.cpp:74-91 | A file-system error becomes an asset error naming the path and carrying the original message. Otherwise "lmp" gives the palette of the whole file, "pcx" that of its last 768 bytes (a read error below 768 bytes), "bmp" that of the decoder's palette or RGB pixels. Any other extension is an asset error naming the path. Every success is an initialized, well-formed palette |
| Palettes.LoadLmp | common/src/Assets/Palette.cpp:93-97 | From a reader at position 0, reads the whole window and yields the palette of those bytes; the reader ends at the window's end. At any other position the read of size() bytes fails and the position stays |
| Palettes.LoadPcx | common/src/Assets/Palette.cpp:99-104 | Yields the palette of exactly the last 768 bytes of the window, leaving the reader at the end; a window shorter than 768 bytes is a read error that leaves the position |
| Palettes.LoadBmp | common/src/Assets/Palette.cpp:106-111 | Yields the palette of the decoded image's palette when it has one, of its RGB pixels otherwise |
| Palettes.FromRaw | common/src/Assets/Palette.cpp:113-117 | Same as the LMP loader: the whole window read from position 0 is the source |
| IndexedImages.TableAlpha | common/src/Assets/Palette.cpp:124-127 | The table `Table` selects for a mode (the opaque one in `Opaque` mode, the transparent one otherwise) has alpha 0xFF in every entry, except entry 255 in `Index255Transparent` mode, whose alpha is 0 |
| IndexedImages.Decode | common/src/Assets/Palette.cpp:134-140 | The image the copy loop builds: four bytes per index, the selected entries in index order |
| IndexedImages.Pixel | common/src/Assets/Palette.cpp:139 | The entry an 8-bit index selects is the four table bytes from 4 * index, and it lies within the 1024-byte table |
| IndexedImages.DecodeAt | common/src/Assets/Palette.cpp:134-140 | Bytes 4j..4j+4 of the decoded image are the table entry selected by index j, for every j |
| IndexedImages.DecodedPixel | common/src/Assets/Palette.cpp:124-140 | With a palette built from 768 RGB bytes, decoded pixel j is (R, G, B, 255) from triple indices[j]; in transparent mode index 255 decodes with alpha 0 instead |
| IndexedImages.TransparentAlpha | common/src/Assets/Palette.cpp:61-63 | In the transparent table of a well-formed palette, entry 255 has alpha 0 and every other entry has alpha 0xFF |
| IndexedImages.ChannelSumBound | common/src/Assets/Palette.cpp:143-148 | Each channel sum is at most 255 per pixel |
| IndexedImages.SumsDoNotWrap | common/src/Assets/Palette.cpp:143-148 | While 255 times the pixel count is below 2^32, the 32-bit accumulators hold the exact channel sums |
| IndexedImages.UniformChannelSum | common/src/Assets/Palette.cpp:143-148 | An image whose indices all select entry k sums, in each channel, k's byte once per pixel |
| IndexedImages.AlphaAndTransparent | common/src/Assets/Palette.cpp:154-163 | Decoded with the transparent table, the AND of all alpha bytes is 0 if some index is 255 and 0xFF otherwise |
| IndexedImages.CopyEntry | common/src/Assets/Palette.cpp:139 | The 4-byte copy writes the selected entry at 4i and no other byte |
| IndexedImages.WritePixels | common/src/Assets/Palette.cpp:134-140 | After the copy loop the first 4 * pixelCount bytes are the decoded image of the indices, and the rest of the buffer is unchanged |
| IndexedImages.SumColors | common/src/Assets/Palette.cpp:142-148 | The accumulator loop yields, for red, green and blue, the channel sum over the decoded pixels modulo 2^32 |
| IndexedImages.AndAlpha | common/src/Assets/Palette.cpp:157-161 | The AND loop yields the AND of the alpha bytes of the first pixelCount pixels, starting from 0xFF |
| IndexedImages.DetectTransparency | common/src/Assets/Palette.h:59-69 | The documented result: true exactly when the decoded alpha AND is not 0xFF, which happens exactly when the index buffer holds the transparent index 255 |
| IndexedImages.IndexedToRgba | common/src/Assets/Palette.cpp:123-166 | Requires pixelCount readable bytes and moves the reader exactly past them. The buffer's first 4 * pixelCount bytes are the decoded image of those indices under the mode's table, and the rest is untouched. The result is true exactly in transparent mode with some index 255. The colour sums are the wrapped channel sums |

## Left out

- `common/src/View/FlyModeHelper.cpp` is not part of this model. It is GUI
  glue: a polling thread, critical sections, event binding and floating-point
  camera maths.
- The average colour. `indexedToRgba` divides each colour sum by
  `255.0f * pixelCount` in floating point; when `pixelCount` is 0 that
  division is 0/0. The model stops at the integer colour sums it divides.
- The file system. Opening a file is an input of `LoadFile`, either the
  file's bytes or the file system's error message. `Path` is reduced to its
  text and its extension, taken as given.
- The BMP decoder. `IO::ImageLoader` is a function parameter of `LoadBmp` and
  `LoadFile` that yields an optional palette and the RGB pixels. The decoder
  is total, so any failure of its own is not modelled.
- `IO::Reader` is not part of this model. `Reader` states the semantics the
  palette code relies on:
  - `size()` is the whole window;
  - a read past the end fails and leaves the position;
  - `seekFromEnd(n)` past the start fails.

  A failed read or seek becomes the `ReadBeyondEnd` error. `BufferedReader` is
  the same class.
- Ownership. The `shared_ptr` that palette copies share is not modelled,
  because the tables never change after construction. A palette is a value
  holding optional tables.
- The size check. `ensure` is taken to raise an error that reaches the
  caller unchanged; it is the error value
  `ConditionFailed("expected 768 bytes")`. `Ensure.h` is not part of this
  model, so the exact form of that error is not modelled.
- Three things `indexedToRgba` relies on without checking them at run time
  are preconditions of `IndexedToRgba`:
  - the palette is initialized and valid, which the unchecked `m_data->`
    dereference needs;
  - `assert(reader.canRead(pixelCount))` holds;
  - the buffer has room for `4 * pixelCount` bytes.
- Loops as helper methods. The three loops of `indexedToRgba` are separate
  methods (`WritePixels`, `SumColors`, `AndAlpha`), called in the source's
  order, and the per-pixel `memcpy` is `CopyEntry`.
- Reading and error behaviour, as the source has it:
  - `LoadLmp` and `FromRaw` read `size()` bytes (the whole window) at the
    current position, so they succeed only from position 0
    (`Palette.cpp` lines 94-95 and 114-115).
  - The unknown-format error names the path only (`Palette.cpp` line 86).
  - Only `FileSystemException` is wrapped into an asset error
    (`Palette.cpp` lines 88-89), so read errors and the size check's error
    pass through unchanged.
