/**
 * The palette value and its loaders: a palette holds shared, never-changing
 * tables or nothing at all, and is loaded from an LMP file (the whole file is
 * the palette), a PCX file (the last 768 bytes), a BMP image (through the
 * image decoder) or a raw reader.
 */
module Palettes {
  import opened Io
  import opened PaletteTables

  /** How an index buffer is decoded: every entry opaque, or index 255 transparent. */
  datatype PaletteTransparency = Opaque | Index255Transparent

  /** A palette value; a default-constructed palette has no tables. */
  datatype Palette = Palette(data: Option<PaletteData>)
  {
    predicate Initialized()
    {
      data.Some?
    }

    /** Tables, when present, are the ones the construction builds. */
    predicate Valid()
    {
      data.Some? ==> WellFormed(data.value)
    }
  }

  /** The default-constructed palette. */
  function Uninitialized(): (p: Palette)
    ensures !p.Initialized() && p.Valid()
  {
    Palette(None)
  }

  /**
   * The palette built from a palette source: initialized with the tables of
   * the source when it has exactly 768 bytes, the size check's failure otherwise.
   */
  function FromBytes(data: seq<byte>): (r: Result<Palette>)
    ensures r.Ok? <==> |data| == RgbSize
    ensures r.Ok? ==> r.value.Initialized() && r.value.Valid() && r.value.data.value == TablesOf(data)
    ensures r.Err? ==> r.error == ConditionFailed(SizeMessage)
  {
    if |data| == RgbSize then Ok(Palette(Some(TablesOf(data)))) else Err(ConditionFailed(SizeMessage))
  }

  /**
   * `initialized()` holds exactly for the palettes that construction from a
   * palette source yields; the default-constructed palette is the only other one.
   */
  lemma InitializedIffConstructed(p: Palette)
    requires p.Valid()
    ensures p.Initialized() <==> exists rgb :: FromBytes(rgb) == Ok(p)
    ensures !p.Initialized() <==> p == Uninitialized()
  {
    if p.Initialized() {
      WellFormedIsBuilt(p.data.value);
      assert FromBytes(RgbOf(p.data.value.opaqueData)) == Ok(p);
    }
  }

  /** Constructs a palette from a palette source by building its tables. */
  method New(data: seq<byte>) returns (r: Result<Palette>)
    ensures r == FromBytes(data)
  {
    var tables := MakeData(data);
    if tables.Err? {
      return Err(tables.error);
    }
    r := Ok(Palette(Some(tables.value)));
  }

  /** Reads as many bytes as the reader's window holds, at its position, as the palette source. */
  method LoadLmp(reader: Reader) returns (r: Result<Palette>)
    requires reader.Valid()
    modifies reader
    ensures reader.Valid()
    ensures r == if old(reader.position) == 0 then FromBytes(reader.bytes) else Err(ReadBeyondEnd)
    ensures reader.position == if old(reader.position) == 0 then |reader.bytes| else old(reader.position)
  {
    var data := reader.Read(reader.Size());
    if data.Err? {
      return Err(data.error);
    }
    assert data.value == reader.bytes[0..|reader.bytes|] == reader.bytes;
    r := New(data.value);
  }

  /** Takes the last 768 bytes of the reader's window as the palette source. */
  method LoadPcx(reader: Reader) returns (r: Result<Palette>)
    requires reader.Valid()
    modifies reader
    ensures reader.Valid()
    ensures var size := |reader.bytes|;
      r == if size < RgbSize then Err(ReadBeyondEnd) else FromBytes(reader.bytes[size - RgbSize..])
    ensures |reader.bytes| >= RgbSize ==> r.Ok? && reader.position == |reader.bytes|
    ensures |reader.bytes| < RgbSize ==> reader.position == old(reader.position)
  {
    var sought := reader.SeekFromEnd(RgbSize);
    if !sought {
      return Err(ReadBeyondEnd);
    }
    var data := reader.Read(RgbSize);
    assert reader.bytes[|reader.bytes| - RgbSize..|reader.bytes|] == reader.bytes[|reader.bytes| - RgbSize..];
    r := New(data.value);
  }

  /** What the image decoder makes of a BMP file. */
  datatype BmpImage = BmpImage(palette: Option<seq<byte>>, rgbPixels: seq<byte>)

  /** A BMP's embedded palette if it has one, its RGB pixel data otherwise. */
  function BmpPaletteSource(image: BmpImage): (source: seq<byte>)
    ensures image.palette.Some? ==> source == image.palette.value
    ensures image.palette.None? ==> source == image.rgbPixels
  {
    if image.palette.Some? then image.palette.value else image.rgbPixels
  }

  /**
   * Decodes the reader's bytes as a BMP image and takes the image's palette,
   * or its RGB pixels when it has none, as the palette source.
   */
  method LoadBmp(reader: Reader, decodeBmp: seq<byte> -> BmpImage) returns (r: Result<Palette>)
    ensures r == FromBytes(BmpPaletteSource(decodeBmp(reader.bytes)))
  {
    var image := decodeBmp(reader.bytes);
    var data := BmpPaletteSource(image);
    r := New(data);
  }

  /** Reads as many bytes as the reader's window holds, at its position, as the palette source. */
  method FromRaw(reader: Reader) returns (r: Result<Palette>)
    requires reader.Valid()
    modifies reader
    ensures reader.Valid()
    ensures r == if old(reader.position) == 0 then FromBytes(reader.bytes) else Err(ReadBeyondEnd)
    ensures reader.position == if old(reader.position) == 0 then |reader.bytes| else old(reader.position)
  {
    var data := reader.Read(reader.Size());
    if data.Err? {
      return Err(data.error);
    }
    assert data.value == reader.bytes[0..|reader.bytes|] == reader.bytes;
    r := New(data.value);
  }

  /** A file path: its text and its extension (the part after the last dot of the file name). */
  datatype Path = Path(text: string, extension: string)

  /** The outcome of opening a file: its contents, or the file system's error message. */
  datatype OpenedFile = Opened(contents: seq<byte>) | FileSystemError(what: string)

  function LowerChar(c: char): char
  {
    if 'A' <= c <= 'Z' then (c as int - 'A' as int + 'a' as int) as char else c
  }

  /** ASCII lower case: upper-case letters become lower-case, every other character stays. */
  function ToLower(s: string): (r: string)
    ensures |r| == |s|
    ensures forall i :: 0 <= i < |s| ==> r[i] == (if 'A' <= s[i] <= 'Z' then (s[i] as int + 32) as char else s[i])
  {
    if s == [] then [] else [LowerChar(s[0])] + ToLower(s[1..])
  }

  const LoadFailurePrefix := "Could not load palette file '"

  /** The load failure message: it names the path, quoted, and ends with the reason. */
  function LoadFailure(path: Path, reason: string): (message: string)
    ensures |message| == |LoadFailurePrefix| + |path.text| + 3 + |reason|
    ensures message[..|LoadFailurePrefix|] == LoadFailurePrefix
    ensures message[|LoadFailurePrefix|..|LoadFailurePrefix| + |path.text|] == path.text
    ensures message[|message| - |reason|..] == reason
  {
    LoadFailurePrefix + path.text + "': " + reason
  }

  /**
   * Opens the file, then chooses the loader by the lower-cased extension. An
   * unknown extension is an asset error naming the path; a file system error
   * becomes an asset error naming the path and carrying the original message.
   */
  method LoadFile(path: Path, file: OpenedFile, decodeBmp: seq<byte> -> BmpImage) returns (r: Result<Palette>)
    ensures file.FileSystemError? ==> r == Err(AssetError(LoadFailure(path, file.what)))
    ensures file.Opened? ==>
      var ext, c := ToLower(path.extension), file.contents;
      r == if ext == "lmp" then FromBytes(c)
           else if ext == "pcx" then (if |c| < RgbSize then Err(ReadBeyondEnd) else FromBytes(c[|c| - RgbSize..]))
           else if ext == "bmp" then FromBytes(BmpPaletteSource(decodeBmp(c)))
           else Err(AssetError(LoadFailure(path, "Unknown palette format")))
    ensures r.Ok? ==> r.value.Initialized() && r.value.Valid()
  {
    if file.FileSystemError? {
      return Err(AssetError(LoadFailure(path, file.what)));
    }
    var reader := new Reader(file.contents);
    var extension := ToLower(path.extension);
    if extension == "lmp" {
      r := LoadLmp(reader);
    } else if extension == "pcx" {
      r := LoadPcx(reader);
    } else if extension == "bmp" {
      r := LoadBmp(reader, decodeBmp);
    } else {
      r := Err(AssetError(LoadFailure(path, "Unknown palette format")));
    }
  }
}
