/**
 * The fixed 16-entry palette and the nearest-colour search that maps every
 * 24-bit pixel to a palette index.
 *
 * The source compares Euclidean distances computed with sqrt and pow on
 * doubles. The component differences are exact integers in -255..255, so
 * every squared distance is an exact integer at most 3 * 255 * 255, and sqrt
 * is strictly monotone on those values: comparing integer squared
 * distances orders the palette entries exactly as the source does.
 */
module Quantizer {
  import opened LittleEndian

  /** A 24-bit pixel as stored on disk: blue, green, red (RGBTRIPLE). */
  datatype RgbTriple = RgbTriple(blue: byte, green: byte, red: byte)

  /** A palette entry as stored on disk: blue, green, red, reserved (RGBQUAD). */
  datatype RgbQuad = RgbQuad(blue: byte, green: byte, red: byte, reserved: byte)

  /** The 16 colours of the Super Cassette Vision palette, in index order. */
  const Palette: seq<RgbQuad> := [
    RgbQuad(0x00, 0x00, 0x00, 0x00),  // black
    RgbQuad(0x00, 0x00, 0xFF, 0x00),  // red
    RgbQuad(0x00, 0xA1, 0xFF, 0x00),  // orange
    RgbQuad(0x9F, 0xA0, 0xFF, 0x00),  // light red
    RgbQuad(0x00, 0xFF, 0xFF, 0x00),  // yellow
    RgbQuad(0x00, 0xA0, 0xA3, 0x00),  // dark yellow
    RgbQuad(0x00, 0xA1, 0x00, 0x00),  // green
    RgbQuad(0x00, 0xFF, 0x00, 0x00),  // lime
    RgbQuad(0x9D, 0xFF, 0xA0, 0x00),  // light green
    RgbQuad(0x9B, 0x00, 0x00, 0x00),  // dark blue
    RgbQuad(0xFF, 0x00, 0x00, 0x00),  // blue
    RgbQuad(0xFF, 0x00, 0xA2, 0x00),  // purple
    RgbQuad(0xFF, 0x00, 0xFF, 0x00),  // magenta
    RgbQuad(0xFF, 0xFF, 0x00, 0x00),  // cyan
    RgbQuad(0x9F, 0xA1, 0xA2, 0x00),  // gray
    RgbQuad(0xFF, 0xFF, 0xFF, 0x00)   // white
  ]

  /** The colour of a palette entry, as a pixel. */
  function ColorOf(q: RgbQuad): RgbTriple {
    RgbTriple(q.blue, q.green, q.red)
  }

  /** Squared Euclidean distance in (blue, green, red) space. */
  function SquaredDistance(c: RgbTriple, q: RgbQuad): nat {
    var db, dg, dr := q.blue - c.blue, q.green - c.green, q.red - c.red;
    db * db + dg * dg + dr * dr
  }

  /** The distance is zero exactly when the entry has the pixel's colour. */
  lemma SquaredDistanceZero(c: RgbTriple, q: RgbQuad)
    ensures SquaredDistance(c, q) == 0 <==> ColorOf(q) == c
  {
    var db, dg, dr := q.blue - c.blue, q.green - c.green, q.red - c.red;
    if SquaredDistance(c, q) == 0 {
      assert db * db >= 0 && dg * dg >= 0 && dr * dr >= 0;
      assert db * db == 0 && dg * dg == 0 && dr * dr == 0;
    }
  }

  /**
   * The index that a linear minimum search over the palette returns: the
   * running best is replaced only by a strictly closer entry, so among
   * equally close entries the first one wins. An empty palette yields 0,
   * the distance from begin to end.
   */
  function FindClosestColor(c: RgbTriple, palette: seq<RgbQuad>): (r: nat)
    ensures |palette| == 0 ==> r == 0
    ensures |palette| > 0 ==> r < |palette|
  {
    if |palette| <= 1 then
      0
    else
      var last := |palette| - 1;
      var best := FindClosestColor(c, palette[..last]);
      if SquaredDistance(c, palette[last]) < SquaredDistance(c, palette[best]) then last else best
  }

  /**
   * The chosen entry is at least as close as every entry, and strictly
   * closer than every entry before it: the first minimum.
   */
  lemma {:induction false} ClosestColorIsFirstMinimum(c: RgbTriple, palette: seq<RgbQuad>)
    requires |palette| > 0
    ensures var r := FindClosestColor(c, palette);
      && (forall j :: 0 <= j < |palette| ==>
            SquaredDistance(c, palette[r]) <= SquaredDistance(c, palette[j]))
      && (forall j :: 0 <= j < r ==>
            SquaredDistance(c, palette[j]) > SquaredDistance(c, palette[r]))
  {
    if |palette| > 1 {
      var last := |palette| - 1;
      var init := palette[..last];
      ClosestColorIsFirstMinimum(c, init);
      var best := FindClosestColor(c, init);
      assert init[best] == palette[best];
      assert forall j :: 0 <= j < last ==> init[j] == palette[j];
    }
  }

  /** Every index chosen from the shipped palette fits in a nibble. */
  lemma ClosestColorIsNibble(c: RgbTriple)
    ensures FindClosestColor(c, Palette) < 16
  {
  }

  /** No two entries of the shipped palette have the same colour. */
  lemma PaletteColorsDistinct()
    ensures |Palette| == 16
    ensures forall i, j :: 0 <= i < j < 16 ==> ColorOf(Palette[i]) != ColorOf(Palette[j])
  {
  }

  /** A pixel whose colour is exactly palette entry i is mapped to i. */
  lemma {:induction false} ExactColorMapsToItsIndex(i: nat)
    requires i < 16
    ensures FindClosestColor(ColorOf(Palette[i]), Palette) == i
  {
    var c := ColorOf(Palette[i]);
    var r := FindClosestColor(c, Palette);
    ClosestColorIsFirstMinimum(c, Palette);
    SquaredDistanceZero(c, Palette[i]);
    assert SquaredDistance(c, Palette[r]) == 0;
    SquaredDistanceZero(c, Palette[r]);
    PaletteColorsDistinct();
  }

  /** Black maps to index 0 and white to index 15. */
  lemma BlackAndWhite()
    ensures FindClosestColor(RgbTriple(0, 0, 0), Palette) == 0
    ensures FindClosestColor(RgbTriple(0xFF, 0xFF, 0xFF), Palette) == 15
  {
    ExactColorMapsToItsIndex(0);
    ExactColorMapsToItsIndex(15);
  }

  /** An entry strictly closer than every other entry is the one chosen. */
  lemma StrictlyClosestWins(c: RgbTriple, palette: seq<RgbQuad>, i: nat)
    requires i < |palette|
    requires forall j :: 0 <= j < |palette| && j != i ==>
      SquaredDistance(c, palette[i]) < SquaredDistance(c, palette[j])
    ensures FindClosestColor(c, palette) == i
  {
    ClosestColorIsFirstMinimum(c, palette);
  }

  /** Of two equally close entries, the later one is never chosen. */
  lemma TieGoesToLowerIndex(c: RgbTriple, palette: seq<RgbQuad>, i: nat, j: nat)
    requires i < j < |palette|
    requires SquaredDistance(c, palette[i]) == SquaredDistance(c, palette[j])
    ensures FindClosestColor(c, palette) != j
  {
    ClosestColorIsFirstMinimum(c, palette);
  }
}
