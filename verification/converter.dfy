/**
 * Conversion of a 24-bit BMP byte stream into a 4-bit paletted BMP byte
 * stream, as convert_bmp_24_to_4_depth does it: read both headers, check
 * the signature and then the depth, rewrite three header fields, write
 * the headers and the 16-entry palette, then pack the pixels two per byte.
 *
 * Convert is the specification as a function of the input bytes;
 * ConvertBmp is the step-by-step procedure, with the source's in-place
 * header updates, its row and column loops and its input cursor, proved
 * to produce exactly what Convert says.
 */
module Converter {
  import opened Wrappers
  import opened LittleEndian
  import opened Headers
  import opened Quantizer

  const TargetBitCount: u16 := 4
  /** sizeof(RGBQUAD) * 2^4: the palette written after the headers. */
  const PaletteSize: nat := 64
  /** Where the pixel bytes start in the output: headers, then palette. */
  const OutputPixelsStart: nat := HeadersSize + PaletteSize

  /** The palette as written to the file: blue, green, red, reserved per entry. */
  function EncodePalette(palette: seq<RgbQuad>): (s: seq<byte>)
    ensures |s| == 4 * |palette|
  {
    if |palette| == 0 then []
    else
      var q := palette[0];
      [q.blue, q.green, q.red, q.reserved] + EncodePalette(palette[1..])
  }

  /** Entry i of the palette occupies bytes 4i..4i+4, in BGR0 order. */
  lemma {:induction false} EncodePaletteAt(palette: seq<RgbQuad>, i: nat)
    requires i < |palette|
    ensures var s, q := EncodePalette(palette), palette[i];
      && s[4 * i] == q.blue && s[4 * i + 1] == q.green
      && s[4 * i + 2] == q.red && s[4 * i + 3] == q.reserved
  {
    if i > 0 {
      EncodePaletteAt(palette[1..], i - 1);
      var rest := EncodePalette(palette[1..]);
      var s := EncodePalette(palette);
      assert s == [palette[0].blue, palette[0].green, palette[0].red, palette[0].reserved] + rest;
      assert palette[1..][i - 1] == palette[i];
    }
  }

  /**
   * The headers for which the source's arithmetic is defined and its loops
   * are bounded. 4 * width must fit in a 32-bit int. The row size must not
   * be negative, because it is cast from double to uint32: 4 * width / 32
   * truncates to 0 for a width of -7..-1 but is negative below that. The
   * new pixel offset must fit in a DWORD, because it is converted from
   * double. Both loops compare a size_t counter with a LONG bound, and a
   * negative bound becomes nearly 2^64: the height must not be negative,
   * and a negative width is allowed only when no row is read.
   */
  predicate DefinedFor(fh: FileHeader, ih: InfoHeader) {
    && -8 < ih.biWidth < 0x2000_0000
    && 0 <= ih.biHeight
    && (ih.biWidth < 0 ==> ih.biHeight == 0)
    && fh.bfOffBits + PaletteSize < 0x1_0000_0000
  }

  /** Headers that pass both checks of the converter. */
  predicate Convertible(fh: FileHeader, ih: InfoHeader) {
    fh.bfType == Signature && ih.biBitCount == 24
  }

  /** The precondition of the conversion: defined behaviour once both checks pass. */
  predicate ConvertDefined(input: seq<byte>) {
    var r := ReadHeaders(input);
    r.Success? && Convertible(r.value.0, r.value.1) ==> DefinedFor(r.value.0, r.value.1)
  }

  /**
   * The row size as the source computes it: the integer division of
   * 4 * width by 32 happens before the ceiling, so the ceiling changes
   * nothing and the result is rounded down, not up. The division truncates
   * toward zero, so a width of -7..-1 gives 0.
   */
  function RowSize(width: int): nat
    requires -8 < width < 0x2000_0000
  {
    (if width < 0 then 0 else (4 * width) / 32) * 4
  }

  /** The row size of a 4-bit BMP: 4 * width bits rounded up to whole DWORDs. */
  function PaddedRowSize(width: nat): nat {
    4 * ((width + 7) / 8)
  }

  /**
   * The computed row size never exceeds the padded one, and equals it
   * exactly when the width is a multiple of 8. The padded row is a whole
   * number of DWORDs and holds a nibble for every pixel.
   */
  lemma RowSizeVsPadded(width: nat)
    requires width < 0x2000_0000
    ensures RowSize(width) <= PaddedRowSize(width)
    ensures RowSize(width) == PaddedRowSize(width) <==> width % 8 == 0
    ensures PaddedRowSize(width) % 4 == 0 && 2 * PaddedRowSize(width) >= width
  {
    assert (4 * width) / 32 == width / 8;
  }

  /**
   * The three header updates: the file size from the computed row size
   * (without the palette, in DWORD arithmetic), the pixel offset moved past
   * the palette, and 4 bits per pixel. Everything else, biSizeImage
   * included, is left as it was.
   */
  function RewriteHeaders(fh: FileHeader, ih: InfoHeader): (FileHeader, InfoHeader)
    requires DefinedFor(fh, ih)
  {
    var pixelArraySize := (RowSize(ih.biWidth) * ih.biHeight) % 0x1_0000_0000;
    (fh.(bfSize := (pixelArraySize + HeadersSize) % 0x1_0000_0000,
         bfOffBits := fh.bfOffBits + PaletteSize),
     ih.(biBitCount := TargetBitCount))
  }

  /**
   * The two reductions modulo 2^32 amount to one: the rewritten file
   * header states (row size * height + 54) mod 2^32 bytes and an offset 64
   * bytes further on, the info header states 4 bits per pixel, and every
   * other field keeps its value.
   */
  lemma RewriteHeadersFields(fh: FileHeader, ih: InfoHeader)
    requires DefinedFor(fh, ih)
    ensures RewriteHeaders(fh, ih).0
      == fh.(bfSize := (RowSize(ih.biWidth) * ih.biHeight + HeadersSize) % 0x1_0000_0000,
             bfOffBits := fh.bfOffBits + PaletteSize)
    ensures RewriteHeaders(fh, ih).1 == ih.(biBitCount := 4)
  {
    DwordSum(RowSize(ih.biWidth) * ih.biHeight, HeadersSize);
  }

  /** Adding to a value reduced modulo 2^32 and reducing again is reducing once. */
  lemma DwordSum(x: int, y: int)
    ensures (x % 0x1_0000_0000 + y) % 0x1_0000_0000 == (x + y) % 0x1_0000_0000
  {
  }

  /**
   * The computed row size never exceeds the bytes the pixel loop writes
   * per row, so the rewritten bfSize is below the length of the headers,
   * the palette and the packed pixels together.
   */
  lemma ComputedSizeBelowWritten(fh: FileHeader, ih: InfoHeader)
    requires DefinedFor(fh, ih)
    ensures ih.biWidth >= 0 ==> RowSize(ih.biWidth) <= PairsPerRow(ih.biWidth)
    ensures RewriteHeaders(fh, ih).0.bfSize < OutputPixelsStart + PixelPairs(ih)
  {
    RewriteHeadersFields(fh, ih);
    if ih.biWidth >= 0 {
      SizeBelowWritten(ih.biWidth, ih.biHeight);
    }
  }

  /** The size computed for a width and a height, against the bytes written for them. */
  lemma SizeBelowWritten(width: nat, height: nat)
    requires width < 0x2000_0000
    ensures RowSize(width) <= PairsPerRow(width)
    ensures (RowSize(width) * height + HeadersSize) % 0x1_0000_0000
          < OutputPixelsStart + height * PairsPerRow(width)
  {
    var r, p := RowSize(width), PairsPerRow(width);
    assert r <= p by {
      assert (4 * width) / 32 == width / 8;
    }
    assert r * height <= p * height;
    assert p * height == height * p;
  }

  /** A slice of a slice is a slice of the whole, shifted by where the outer slice starts. */
  lemma SliceOfSlice(s: seq<byte>, from: nat, to: nat, i: nat, j: nat)
    requires from <= to <= |s| && i <= j <= to - from
    ensures s[from..to][i..j] == s[from + i..from + j]
  {
    forall k | 0 <= k < j - i
      ensures s[from..to][i..j][k] == s[from + i..from + j][k]
    {
    }
  }

  /** How often the column loop runs for one row: column = 0, 2, 4, ... < width. */
  function PairsPerRow(width: nat): nat {
    (width + 1) / 2
  }

  /**
   * How many 6-byte pairs the whole pixel loop reads: ceil(width / 2) per
   * row. A negative width is only ever paired with no rows.
   */
  function PairCount(width: int, height: nat): nat
    requires width >= 0 || height == 0
  {
    if width < 0 then 0 else height * PairsPerRow(width)
  }

  /** How many 6-byte pairs the pixel loop reads for an image. */
  function PixelPairs(ih: InfoHeader): nat
    requires 0 <= ih.biHeight && (ih.biWidth >= 0 || ih.biHeight == 0)
  {
    PairCount(ih.biWidth, ih.biHeight)
  }

  /** The pixel whose three bytes start at s[at]. */
  function PixelAt(s: seq<byte>, at: nat): RgbTriple
    requires at + 3 <= |s|
  {
    RgbTriple(s[at], s[at + 1], s[at + 2])
  }

  /**
   * One output byte from one pair of pixels: the index of the first
   * (left) pixel in the high nibble and that of the second in the low
   * nibble. Both indices are below 16, so shifting the first left by 4
   * and or-ing in the second is the same as 16 * first + second.
   */
  function PackPair(pair: seq<byte>): byte
    requires |pair| == 6
  {
    var high := FindClosestColor(PixelAt(pair, 0), Palette);
    var low := FindClosestColor(PixelAt(pair, 3), Palette);
    high * 16 + low
  }

  /**
   * Byte i of the stream as the pixel loop sees it. Each pair is read
   * into a freshly value-initialized std::pair, so a read that comes up
   * short, or one made after the stream has failed, leaves 0 in every
   * byte it does not store.
   */
  function ByteAt(s: seq<byte>, i: nat): byte {
    if i < |s| then s[i] else 0
  }

  /** The 6 bytes one read of a pair of pixels leaves in the pair, from position at on. */
  function ReadPair(s: seq<byte>, at: nat): (pair: seq<byte>)
    ensures |pair| == 6
  {
    [ByteAt(s, at), ByteAt(s, at + 1), ByteAt(s, at + 2),
     ByteAt(s, at + 3), ByteAt(s, at + 4), ByteAt(s, at + 5)]
  }

  /** The pixel the loop sees at position at of the stream, missing bytes read as 0. */
  function StreamPixelAt(s: seq<byte>, at: nat): RgbTriple {
    RgbTriple(ByteAt(s, at), ByteAt(s, at + 1), ByteAt(s, at + 2))
  }

  /** Where the stream holds all 6 bytes, the pair is exactly those bytes. */
  lemma ReadPairInside(s: seq<byte>, at: nat)
    requires at + 6 <= |s|
    ensures ReadPair(s, at) == s[at..at + 6]
  {
  }

  /** Past the end of the stream, the pair is all zero bytes. */
  lemma ReadPairPastEnd(s: seq<byte>, at: nat)
    requires |s| <= at
    ensures ReadPair(s, at) == [0, 0, 0, 0, 0, 0]
  {
  }

  /**
   * The bytes packed from the first n pairs after the headers, in order:
   * pair k is read from 54 + 6k on.
   */
  function PackPixels(input: seq<byte>, n: nat): (packed: seq<byte>)
    ensures |packed| == n
  {
    if n == 0 then []
    else PackPixels(input, n - 1) + [PackPair(ReadPair(input, HeadersSize + 6 * (n - 1)))]
  }

  /** Packed byte k comes from the k-th pair after the headers. */
  lemma {:induction false} PackPixelsAt(input: seq<byte>, n: nat, k: nat)
    requires k < n
    ensures PackPixels(input, n)[k] == PackPair(ReadPair(input, HeadersSize + 6 * k))
  {
    var init := PackPixels(input, n - 1);
    var last := ReadPair(input, HeadersSize + 6 * (n - 1));
    assert PackPixels(input, n) == init + [PackPair(last)];
    if k < n - 1 {
      PackPixelsAt(input, n - 1, k);
      assert PackPixels(input, n)[k] == init[k];
    } else {
      assert k == n - 1;
      assert PackPixels(input, n)[k] == PackPair(last);
    }
  }

  /** Packing one more pair, read where the previous ones end, appends its byte. */
  lemma PackPixelsNext(input: seq<byte>, done: nat, pair: seq<byte>)
    requires pair == ReadPair(input, HeadersSize + 6 * done)
    ensures PackPixels(input, done + 1) == PackPixels(input, done) + [PackPair(pair)]
  {
  }

  /** Every row before the last leaves at least one row of pairs to read. */
  lemma RowsBeforeLast(row: nat, height: nat, perRow: nat)
    requires row < height
    ensures row * perRow + perRow == (row + 1) * perRow <= height * perRow
  {
  }

  /**
   * The converted stream: the rewritten file and info headers, the
   * palette, then one byte per pair of pixels. The pixel area is read as
   * a flat run of 6-byte pairs from byte 54 on, height * ceil(width / 2)
   * of them: input row padding is not skipped and output rows are not
   * padded. For an odd width the last pair of a row also takes the 3
   * bytes after the row's last pixel; in a padded file these start with
   * the row padding, and every later pair is out of step with the stored
   * rows. Bytes missing at the end of the stream read as 0.
   *
   * Each check fires as soon as the stream holds the field it compares:
   * the signature needs 2 bytes and the depth 30. A stream too short for
   * a field it must compare, or that passes both checks with fewer than
   * 54 bytes, is ShortRead: there the program would go on with header
   * bytes it never read. Any failure produces no output.
   */
  function Convert(input: seq<byte>): (r: Result<seq<byte>, Error>)
    requires ConvertDefined(input)
    ensures r.Success? ==> ReadHeaders(input).Success?
    ensures r.Success? ==>
      var (fh, ih) := ReadHeaders(input).value;
      && Convertible(fh, ih) && DefinedFor(fh, ih)
      && |r.value| == OutputPixelsStart + PixelPairs(ih)
  {
    if |input| < 2 then Failure(ShortRead)
    else if U16At(input, 0) != Signature then Failure(NotBmpFile)
    else if |input| < DepthFieldEnd then Failure(ShortRead)
    else if U16At(input, 28) != 24 then Failure(NotTwentyFourBitsPerPixel)
    else
      var headers :- ReadHeaders(input);
      var (fh, ih) := headers;
      HeaderFieldsAtOffsets(input);
      var (fh', ih') := RewriteHeaders(fh, ih);
      Success(EncodeFileHeader(fh') + EncodeInfoHeader(ih') + EncodePalette(Palette)
              + PackPixels(input, PixelPairs(ih)))
  }

  /**
   * The converter, step by step. The headers are read and checked, then
   * updated in place; the output is the rewritten headers and the palette
   * followed by what the pixel loops produce.
   */
  method ConvertBmp(input: seq<byte>) returns (r: Result<seq<byte>, Error>)
    requires ConvertDefined(input)
    ensures r == Convert(input)
  {
    // Check the signature, then the depth, as far as the stream holds them.
    if |input| < 2 {
      return Failure(ShortRead);
    }
    if U16At(input, 0) != Signature {
      return Failure(NotBmpFile);
    }
    if |input| < DepthFieldEnd {
      return Failure(ShortRead);
    }
    if U16At(input, 28) != 24 {
      return Failure(NotTwentyFourBitsPerPixel);
    }

    // Read BMP headers.
    if |input| < HeadersSize {
      return Failure(ShortRead);
    }
    var fileHeader := DecodeFileHeader(input[..FileHeaderSize]);
    var infoHeader := DecodeInfoHeader(input[FileHeaderSize..HeadersSize]);
    assert ReadHeaders(input) == Success((fileHeader, infoHeader));
    HeaderFieldsAtOffsets(input);

    // Update the headers for 4-bit depth.
    fileHeader, infoHeader := UpdateHeaders(fileHeader, infoHeader);

    // Write the headers and the palette, then the packed pixels.
    var output := EncodeFileHeader(fileHeader) + EncodeInfoHeader(infoHeader) + EncodePalette(Palette);
    var packed := PackRows(input, infoHeader.biWidth, infoHeader.biHeight);
    return Success(output + packed);
  }

  /**
   * The header updates as the converter performs them, one field at a
   * time on its local copies of the headers.
   */
  method UpdateHeaders(fh: FileHeader, ih: InfoHeader) returns (fileHeader: FileHeader, infoHeader: InfoHeader)
    requires DefinedFor(fh, ih)
    ensures (fileHeader, infoHeader) == RewriteHeaders(fh, ih)
  {
    fileHeader, infoHeader := fh, ih;
    var rowSize := RowSize(infoHeader.biWidth);
    var pixelArraySize := (rowSize * infoHeader.biHeight) % 0x1_0000_0000;
    fileHeader := fileHeader.(bfSize := (pixelArraySize + HeadersSize) % 0x1_0000_0000);
    fileHeader := fileHeader.(bfOffBits := fileHeader.bfOffBits + PaletteSize);
    infoHeader := infoHeader.(biBitCount := TargetBitCount);
  }

  /**
   * The pixel loops: for each row, for column = 0, 2, 4, ... < width, read
   * the next 6 bytes as a pair of pixels and emit one packed byte. The
   * cursor starts right after the headers and never skips anything; past
   * the end of the input the pairs read as zero bytes.
   */
  method PackRows(input: seq<byte>, width: int, height: nat) returns (packed: seq<byte>)
    requires width >= 0 || height == 0
    ensures packed == PackPixels(input, PairCount(width, height))
  {
    ghost var perRow := if width < 0 then 0 else PairsPerRow(width);
    packed := [];
    ghost var done := 0;
    var cursor := HeadersSize;
    var row := 0;
    while row < height
      invariant 0 <= row <= height
      invariant done == row * perRow
      invariant cursor == HeadersSize + 6 * done
      invariant packed == PackPixels(input, done)
    {
      assert width >= 0;
      ghost var rowStart := done;
      RowsBeforeLast(row, height, perRow);
      var column := 0;
      while column < width
        invariant column == 2 * (done - rowStart) <= width + 1
        invariant cursor == HeadersSize + 6 * done
        invariant packed == PackPixels(input, done)
        decreases width + 1 - column
      {
        var pair := ReadPair(input, cursor);
        var twoPixels := PackPair(pair);
        PackPixelsNext(input, done, pair);
        packed := packed + [twoPixels];
        cursor := cursor + 6;
        done := done + 1;
        column := column + 2;
      }
      assert done == rowStart + perRow;
      row := row + 1;
    }
  }
}
