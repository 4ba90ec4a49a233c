/**
 * The two RGBA lookup tables of a palette (`PaletteData`) and their
 * construction from 256 RGB triples (`makeData`).
 */
module PaletteTables {
  import opened Io

  /** Bytes of RGB palette source: 256 triples. */
  const RgbSize: nat := 768
  /** Bytes of each RGBA table: 256 entries of four bytes. */
  const RgbaSize: nat := 1024

  const SizeMessage := "expected 768 bytes"

  /** Both tables hold 1024 bytes in RGBA order. */
  datatype PaletteData = PaletteData(opaqueData: seq<byte>, index255TransparentData: seq<byte>)

  /** The opaque RGBA entry built from RGB triple `i`. */
  function RgbaEntry(rgb: seq<byte>, i: nat): seq<byte>
    requires 3 * i + 3 <= |rgb|
  {
    [rgb[3 * i], rgb[3 * i + 1], rgb[3 * i + 2], 0xFF]
  }

  /** The alpha byte of entry `i` of an RGBA table. */
  function Alpha(table: seq<byte>, i: nat): byte
    requires 4 * i + 4 <= |table|
  {
    table[4 * i + 3]
  }

  /** The opaque table after the construction loop has pushed its first `n` entries. */
  function OpaquePrefix(rgb: seq<byte>, n: nat): (t: seq<byte>)
    requires 3 * n <= |rgb|
    ensures |t| == 4 * n
    ensures forall i :: 0 <= i < n ==> Alpha(t, i) == 0xFF
  {
    if n == 0 then []
    else
      var prev := OpaquePrefix(rgb, n - 1);
      var t := prev + RgbaEntry(rgb, n - 1);
      assert forall i :: 0 <= i < n - 1 ==> Alpha(t, i) == Alpha(prev, i);
      t
  }

  /**
   * What every palette's tables satisfy: both are 1024 bytes, every opaque
   * entry has alpha 255, and the transparent table differs from the opaque
   * one only in its last byte (entry 255's alpha), which is 0.
   */
  predicate WellFormed(d: PaletteData)
  {
    && |d.opaqueData| == RgbaSize
    && |d.index255TransparentData| == RgbaSize
    && (forall i :: 0 <= i < 256 ==> Alpha(d.opaqueData, i) == 0xFF)
    && (forall k :: 0 <= k < RgbaSize ==>
          d.index255TransparentData[k] == if k == RgbaSize - 1 then 0 else d.opaqueData[k])
  }

  /** The tables built from 768 RGB bytes. */
  function TablesOf(rgb: seq<byte>): (d: PaletteData)
    requires |rgb| == RgbSize
    ensures WellFormed(d)
  {
    var opaqueTable := OpaquePrefix(rgb, 256);
    PaletteData(opaqueTable, opaqueTable[RgbaSize - 1 := 0])
  }

  lemma {:induction false} OpaquePrefixEntry(rgb: seq<byte>, n: nat, i: nat)
    requires 3 * n <= |rgb| && i < n
    ensures OpaquePrefix(rgb, n)[4 * i..4 * i + 4] == RgbaEntry(rgb, i)
  {
    var prev := OpaquePrefix(rgb, n - 1);
    var last := RgbaEntry(rgb, n - 1);
    assert OpaquePrefix(rgb, n) == prev + last;
    if i < n - 1 {
      OpaquePrefixEntry(rgb, n - 1, i);
      assert (prev + last)[4 * i..4 * i + 4] == prev[4 * i..4 * i + 4];
    } else {
      assert (prev + last)[4 * i..4 * i + 4] == last;
    }
  }

  /** Entry `i` of the opaque table is (R, G, B, 255) from triple `i`. */
  lemma OpaqueEntry(rgb: seq<byte>, i: nat)
    requires |rgb| == RgbSize && i < 256
    ensures |TablesOf(rgb).opaqueData| == RgbaSize
    ensures TablesOf(rgb).opaqueData[4 * i..4 * i + 4] == RgbaEntry(rgb, i)
  {
    OpaquePrefixEntry(rgb, 256, i);
  }

  /** Entry `i` of the transparent table is the opaque entry, except that entry 255 has alpha 0. */
  lemma TransparentEntry(rgb: seq<byte>, i: nat)
    requires |rgb| == RgbSize && i < 256
    ensures |TablesOf(rgb).index255TransparentData| == RgbaSize
    ensures TablesOf(rgb).index255TransparentData[4 * i..4 * i + 4] ==
      if i == 255 then [rgb[765], rgb[766], rgb[767], 0] else RgbaEntry(rgb, i)
  {
    OpaqueEntry(rgb, i);
    var d := TablesOf(rgb);
    var entry := d.opaqueData[4 * i..4 * i + 4];
    assert entry[0] == d.opaqueData[4 * i] && entry[1] == d.opaqueData[4 * i + 1];
    assert entry[2] == d.opaqueData[4 * i + 2] && entry[3] == d.opaqueData[4 * i + 3];
  }

  /** The RGB source an opaque table was built from: the first three bytes of each entry. */
  function RgbOf(table: seq<byte>): (rgb: seq<byte>)
    requires |table| == RgbaSize
    ensures |rgb| == RgbSize
  {
    seq(RgbSize, k requires 0 <= k < RgbSize => table[4 * (k / 3) + k % 3])
  }

  /** Byte `m` of the opaque table built from a table's RGB is that table's byte `m`. */
  lemma RebuiltOpaqueByte(d: PaletteData, m: nat)
    requires WellFormed(d) && m < RgbaSize
    ensures TablesOf(RgbOf(d.opaqueData)).opaqueData[m] == d.opaqueData[m]
  {
    var rgb := RgbOf(d.opaqueData);
    var t := TablesOf(rgb).opaqueData;
    var i, c := m / 4, m % 4;
    OpaqueEntry(rgb, i);
    assert t[m] == t[4 * i..4 * i + 4][c];
    if c < 3 {
      var k := 3 * i + c;
      assert k / 3 == i && k % 3 == c;
      assert rgb[k] == d.opaqueData[4 * i + c];
    } else {
      assert Alpha(d.opaqueData, i) == 0xFF;
    }
  }

  /**
   * Every pair of well-formed tables is the one built from some RGB source:
   * the one read back from its opaque table.
   */
  lemma WellFormedIsBuilt(d: PaletteData)
    requires WellFormed(d)
    ensures TablesOf(RgbOf(d.opaqueData)) == d
  {
    var built := TablesOf(RgbOf(d.opaqueData));
    forall m | 0 <= m < RgbaSize
      ensures built.opaqueData[m] == d.opaqueData[m]
    {
      RebuiltOpaqueByte(d, m);
    }
    assert built.opaqueData == d.opaqueData;
    assert built.index255TransparentData == d.index255TransparentData;
  }

  /**
   * Builds both tables from the palette source: pushes (R, G, B, 255) for
   * every triple, copies the result and clears the copy's last byte. A source
   * of any length other than 768 fails the size check.
   */
  method MakeData(data: seq<byte>) returns (r: Result<PaletteData>)
    ensures |data| == RgbSize ==> r == Ok(TablesOf(data))
    ensures |data| != RgbSize ==> r == Err(ConditionFailed(SizeMessage))
  {
    if |data| != RgbSize {
      return Err(ConditionFailed(SizeMessage));
    }
    var opaqueTable: seq<byte> := [];
    var i := 0;
    while i < 256
      invariant 0 <= i <= 256
      invariant opaqueTable == OpaquePrefix(data, i)
    {
      var red, green, blue := data[3 * i], data[3 * i + 1], data[3 * i + 2];
      opaqueTable := opaqueTable + [red];
      opaqueTable := opaqueTable + [green];
      opaqueTable := opaqueTable + [blue];
      opaqueTable := opaqueTable + [0xFF];
      i := i + 1;
    }
    var transparentTable := opaqueTable;
    transparentTable := transparentTable[RgbaSize - 1 := 0];
    r := Ok(PaletteData(opaqueTable, transparentTable));
  }
}
