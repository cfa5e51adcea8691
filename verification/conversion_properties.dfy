/**
 * What a successful or rejected conversion looks like from the outside:
 * the order of the checks, the layout of the output stream, the header
 * fields that change and those that are copied, and what the inspector
 * reports about a converted stream.
 */
module ConversionProperties {
  import opened Wrappers
  import opened LittleEndian
  import opened Headers
  import opened Quantizer
  import opened Converter
  import opened Tester

  /** Both indices packed into a byte can be read back from its two nibbles. */
  lemma PackPairNibbles(pair: seq<byte>)
    requires |pair| == 6
    ensures PackPair(pair) / 16 == FindClosestColor(PixelAt(pair, 0), Palette)
    ensures PackPair(pair) % 16 == FindClosestColor(PixelAt(pair, 3), Palette)
  {
    ClosestColorIsNibble(PixelAt(pair, 0));
    ClosestColorIsNibble(PixelAt(pair, 3));
  }

  /**
   * The checks come in the program's order, each as soon as the stream
   * holds the field it compares: the signature (2 bytes), then the depth
   * (30 bytes). A stream that passes both but ends inside the headers is
   * ShortRead; one that holds both headers and passes both checks
   * converts, however short its pixel area.
   */
  lemma {:induction false} ConvertChecksInOrder(input: seq<byte>)
    requires ConvertDefined(input)
    ensures |input| < 2 ==> Convert(input) == Failure(ShortRead)
    ensures |input| >= 2 && !(input[0] == 0x42 && input[1] == 0x4D) ==>
      Convert(input) == Failure(NotBmpFile)
    ensures 2 <= |input| < DepthFieldEnd && input[0] == 0x42 && input[1] == 0x4D ==>
      Convert(input) == Failure(ShortRead)
    ensures |input| >= DepthFieldEnd && input[0] == 0x42 && input[1] == 0x4D && U16At(input, 28) != 24 ==>
      Convert(input) == Failure(NotTwentyFourBitsPerPixel)
    ensures DepthFieldEnd <= |input| < HeadersSize && input[0] == 0x42 && input[1] == 0x4D && U16At(input, 28) == 24 ==>
      Convert(input) == Failure(ShortRead)
    ensures Convert(input).Success? <==>
      |input| >= HeadersSize && input[0] == 0x42 && input[1] == 0x4D && U16At(input, 28) == 24
  {
    if |input| >= 2 {
      SignatureIsBM(input);
    }
  }

  /**
   * A converted stream is the 14-byte file header, the 40-byte info
   * header, the 64-byte palette in BGR0 order, and then one byte for each
   * of the height * ceil(width / 2) pairs read from byte 54 on: byte k
   * holds the index of the first pixel of pair k in its high nibble and
   * that of the second pixel in its low nibble, bytes past the end of the
   * input read as 0.
   */
  lemma {:induction false} ConvertOutputLayout(input: seq<byte>)
    requires ConvertDefined(input) && Convert(input).Success?
    ensures var out, n := Convert(input).value, PixelPairs(ReadHeaders(input).value.1);
      && |out| == OutputPixelsStart + n
      && out[HeadersSize..OutputPixelsStart] == EncodePalette(Palette)
      && PairsPackedAfterPalette(input, out, n)
  {
    ConvertedParts(input);
    PackedAfterPalette(input, Convert(input).value, PixelPairs(ReadHeaders(input).value.1));
  }

  /**
   * A pixel area shorter than the loops read is not an error: every pair
   * that starts at or past the end of the input is packed as 0x00, black
   * twice.
   */
  lemma ConvertPacksMissingPairsAsBlack(input: seq<byte>)
    requires ConvertDefined(input) && Convert(input).Success?
    ensures var out, n := Convert(input).value, PixelPairs(ReadHeaders(input).value.1);
      forall k :: 0 <= k < n && |input| <= HeadersSize + 6 * k ==> out[OutputPixelsStart + k] == 0
  {
    ConvertOutputLayout(input);
    BlackAndWhite();
  }

  /** A stream whose bytes after the palette are the packed pairs holds every pair's two indices. */
  lemma PackedAfterPalette(input: seq<byte>, out: seq<byte>, n: nat)
    requires |out| == OutputPixelsStart + n
    requires out[OutputPixelsStart..] == PackPixels(input, n)
    ensures PairsPackedAfterPalette(input, out, n)
  {
    forall k | 0 <= k < n
      ensures out[OutputPixelsStart + k] / 16 == FindClosestColor(StreamPixelAt(input, HeadersSize + 6 * k), Palette)
      ensures out[OutputPixelsStart + k] % 16 == FindClosestColor(StreamPixelAt(input, HeadersSize + 6 * k + 3), Palette)
    {
      OutputByteNibbles(input, out, n, k);
    }
  }

  /**
   * For each of the first n pairs after the input's headers, the output
   * byte at 118 + k holds the index of the pair's first pixel in its high
   * nibble and that of its second pixel in its low nibble.
   */
  predicate PairsPackedAfterPalette(input: seq<byte>, out: seq<byte>, n: nat)
    requires |out| == OutputPixelsStart + n
  {
    forall k :: 0 <= k < n ==>
      && out[OutputPixelsStart + k] / 16 == FindClosestColor(StreamPixelAt(input, HeadersSize + 6 * k), Palette)
      && out[OutputPixelsStart + k] % 16 == FindClosestColor(StreamPixelAt(input, HeadersSize + 6 * k + 3), Palette)
  }

  /** Byte k after the palette holds the indices of the two pixels of the k-th pair. */
  lemma OutputByteNibbles(input: seq<byte>, out: seq<byte>, n: nat, k: nat)
    requires |out| == OutputPixelsStart + n
    requires out[OutputPixelsStart..] == PackPixels(input, n)
    requires k < n
    ensures out[OutputPixelsStart + k] / 16 == FindClosestColor(StreamPixelAt(input, HeadersSize + 6 * k), Palette)
    ensures out[OutputPixelsStart + k] % 16 == FindClosestColor(StreamPixelAt(input, HeadersSize + 6 * k + 3), Palette)
  {
    PackedByteNibbles(input, n, k);
    assert out[OutputPixelsStart + k] == out[OutputPixelsStart..][k];
  }

  /** Packed byte k holds the indices of the two pixels of the k-th pair after byte 54. */
  lemma PackedByteNibbles(input: seq<byte>, n: nat, k: nat)
    requires k < n
    ensures var b := PackPixels(input, n)[k];
      && b / 16 == FindClosestColor(StreamPixelAt(input, HeadersSize + 6 * k), Palette)
      && b % 16 == FindClosestColor(StreamPixelAt(input, HeadersSize + 6 * k + 3), Palette)
  {
    var at := HeadersSize + 6 * k;
    var pair := ReadPair(input, at);
    PackPixelsAt(input, n, k);
    PackPairNibbles(pair);
    assert PixelAt(pair, 0) == StreamPixelAt(input, at);
    assert PixelAt(pair, 3) == StreamPixelAt(input, at + 3);
  }

  /**
   * The four parts of a converted stream, each at its offset: the
   * rewritten file header, the rewritten info header, the palette and the
   * packed pixels.
   */
  lemma {:induction false} ConvertedParts(input: seq<byte>)
    requires ConvertDefined(input) && Convert(input).Success?
    ensures var (fh, ih) := ReadHeaders(input).value;
      var (fh', ih') := RewriteHeaders(fh, ih);
      var out := Convert(input).value;
      && |out| == OutputPixelsStart + PixelPairs(ih)
      && out[..FileHeaderSize] == EncodeFileHeader(fh')
      && out[FileHeaderSize..HeadersSize] == EncodeInfoHeader(ih')
      && out[HeadersSize..OutputPixelsStart] == EncodePalette(Palette)
      && out[OutputPixelsStart..] == PackPixels(input, PixelPairs(ih))
  {
    var (fh, ih) := ReadHeaders(input).value;
    var (fh', ih') := RewriteHeaders(fh, ih);
    var a, b, c := EncodeFileHeader(fh'), EncodeInfoHeader(ih'), EncodePalette(Palette);
    var d := PackPixels(input, PixelPairs(ih));
    var out := Convert(input).value;
    HeaderFieldsAtOffsets(input);
    assert U16At(input, 0) == Signature && U16At(input, 28) == 24;
    assert out == a + b + c + d;
    FourParts(a, b, c, d);
  }

  /** Where each of four concatenated parts of known length sits in the whole. */
  lemma FourParts(a: seq<byte>, b: seq<byte>, c: seq<byte>, d: seq<byte>)
    requires |a| == FileHeaderSize && |b| == InfoHeaderSize && |c| == PaletteSize
    ensures var out := a + b + c + d;
      && out[..FileHeaderSize] == a
      && out[FileHeaderSize..HeadersSize] == b
      && out[HeadersSize..OutputPixelsStart] == c
      && out[OutputPixelsStart..] == d
  {
    var out := a + b + c + d;
    assert out[..FileHeaderSize] == a;
    assert out[FileHeaderSize..HeadersSize] == b;
    assert out[HeadersSize..OutputPixelsStart] == c;
    assert out[OutputPixelsStart..] == d;
  }

  /**
   * The palette entries appear in the output in index order, four bytes
   * each: blue, green, red, reserved.
   */
  lemma PaletteWrittenVerbatim(input: seq<byte>, i: nat)
    requires ConvertDefined(input) && Convert(input).Success?
    requires i < 16
    ensures var out, at, q := Convert(input).value, HeadersSize + 4 * i, Palette[i];
      && out[at] == q.blue && out[at + 1] == q.green
      && out[at + 2] == q.red && out[at + 3] == q.reserved
  {
    ConvertedParts(input);
    PaletteEntryInStream(Convert(input).value, Palette, i);
  }

  /** In a stream holding an encoded palette from byte 54 on, entry i is at 54 + 4i. */
  lemma PaletteEntryInStream(out: seq<byte>, palette: seq<RgbQuad>, i: nat)
    requires |out| >= HeadersSize + 4 * |palette|
    requires out[HeadersSize..HeadersSize + 4 * |palette|] == EncodePalette(palette)
    requires i < |palette|
    ensures var at, q := HeadersSize + 4 * i, palette[i];
      && out[at] == q.blue && out[at + 1] == q.green
      && out[at + 2] == q.red && out[at + 3] == q.reserved
  {
    EncodePaletteAt(palette, i);
    var encoded := out[HeadersSize..HeadersSize + 4 * |palette|];
    var at := HeadersSize + 4 * i;
    assert out[at] == encoded[4 * i];
    assert out[at + 1] == encoded[4 * i + 1];
    assert out[at + 2] == encoded[4 * i + 2];
    assert out[at + 3] == encoded[4 * i + 3];
  }

  /**
   * What the header update does to the encoded headers: the signature,
   * the reserved words and every info header field but the depth keep
   * their bytes, and the depth is written as 4, 0.
   */
  lemma RewrittenHeaderBytes(fh: FileHeader, ih: InfoHeader)
    requires DefinedFor(fh, ih)
    ensures var (fh', ih') := RewriteHeaders(fh, ih);
      var f, f' := EncodeFileHeader(fh), EncodeFileHeader(fh');
      var i, i' := EncodeInfoHeader(ih), EncodeInfoHeader(ih');
      && f'[0..2] == f[0..2] && f'[6..10] == f[6..10]
      && i'[0..14] == i[0..14] && i'[14..16] == [4, 0] && i'[16..40] == i[16..40]
  {
    var (fh', ih') := RewriteHeaders(fh, ih);
    FileHeaderKeptBytes(fh, fh');
    InfoHeaderKeptBytes(ih, ih');
  }

  /** File headers that agree on the signature and the reserved words agree on their bytes. */
  lemma FileHeaderKeptBytes(fh: FileHeader, fh': FileHeader)
    requires fh'.bfType == fh.bfType
    requires fh'.bfReserved1 == fh.bfReserved1 && fh'.bfReserved2 == fh.bfReserved2
    ensures var f, f' := EncodeFileHeader(fh), EncodeFileHeader(fh');
      f'[0..2] == f[0..2] && f'[6..10] == f[6..10]
  {
    var f, f' := EncodeFileHeader(fh), EncodeFileHeader(fh');
    assert f'[0..2] == U16Bytes(fh.bfType) == f[0..2];
    assert f'[6..10] == U16Bytes(fh.bfReserved1) + U16Bytes(fh.bfReserved2) == f[6..10];
  }

  /** Info headers that differ at most in the depth agree on every other byte; depth 4 is written 4, 0. */
  lemma InfoHeaderKeptBytes(ih: InfoHeader, ih': InfoHeader)
    requires ih' == ih.(biBitCount := 4)
    ensures var i, i' := EncodeInfoHeader(ih), EncodeInfoHeader(ih');
      i'[0..14] == i[0..14] && i'[14..16] == [4, 0] && i'[16..40] == i[16..40]
  {
    var i, i' := EncodeInfoHeader(ih), EncodeInfoHeader(ih');
    assert i'[0..14] == U32Bytes(ih.biSize) + I32Bytes(ih.biWidth) + I32Bytes(ih.biHeight)
        + U16Bytes(ih.biPlanes) == i[0..14];
    assert i'[14..16] == U16Bytes(4);
    assert i'[16..40] == U32Bytes(ih.biCompression) + U32Bytes(ih.biSizeImage)
        + I32Bytes(ih.biXPelsPerMeter) + I32Bytes(ih.biYPelsPerMeter)
        + U32Bytes(ih.biClrUsed) + U32Bytes(ih.biClrImportant) == i[16..40];
  }

  /**
   * The headers of a converted stream read back as the rewritten headers
   * of the input (RewriteHeadersFields says what changes in them).
   */
  lemma {:induction false} ConvertRewritesHeaders(input: seq<byte>)
    requires ConvertDefined(input) && Convert(input).Success?
    ensures var out, fh, ih := Convert(input).value, ReadHeaders(input).value.0, ReadHeaders(input).value.1;
      && DecodeFileHeader(out[..FileHeaderSize]) == RewriteHeaders(fh, ih).0
      && DecodeInfoHeader(out[FileHeaderSize..HeadersSize]) == RewriteHeaders(fh, ih).1
  {
    var fh, ih := ReadHeaders(input).value.0, ReadHeaders(input).value.1;
    ConvertedParts(input);
    FileHeaderRoundTrip(RewriteHeaders(fh, ih).0);
    InfoHeaderRoundTrip(RewriteHeaders(fh, ih).1);
  }

  /**
   * Byte for byte, a converted stream keeps the input's signature, reserved
   * words and info header, except for the depth, which becomes 4, 0.
   */
  lemma {:induction false} ConvertKeepsHeaderBytes(input: seq<byte>)
    requires ConvertDefined(input) && Convert(input).Success?
    ensures var out := Convert(input).value;
      && out[0..2] == input[0..2]
      && out[6..10] == input[6..10]
      && out[14..28] == input[14..28]
      && out[28..30] == [4, 0]
      && out[30..54] == input[30..54]
  {
    var fh, ih := ReadHeaders(input).value.0, ReadHeaders(input).value.1;
    var fh', ih' := RewriteHeaders(fh, ih).0, RewriteHeaders(fh, ih).1;
    ConvertedParts(input);
    RewrittenHeaderBytes(fh, ih);
    HeaderSlices(input, Convert(input).value, EncodeFileHeader(fh), EncodeInfoHeader(ih),
      EncodeFileHeader(fh'), EncodeInfoHeader(ih'));
  }

  /** Byte ranges of two streams, read through the header encodings each starts with. */
  lemma HeaderSlices(input: seq<byte>, out: seq<byte>, f: seq<byte>, i: seq<byte>,
                     f': seq<byte>, i': seq<byte>)
    requires |input| >= HeadersSize && |out| >= HeadersSize
    requires |f| == |f'| == FileHeaderSize && |i| == |i'| == InfoHeaderSize
    requires f + i == input[..HeadersSize]
    requires out[..FileHeaderSize] == f' && out[FileHeaderSize..HeadersSize] == i'
    requires f'[0..2] == f[0..2] && f'[6..10] == f[6..10]
    requires i'[0..14] == i[0..14] && i'[14..16] == [4, 0] && i'[16..40] == i[16..40]
    ensures out[0..2] == input[0..2]
    ensures out[6..10] == input[6..10]
    ensures out[14..28] == input[14..28]
    ensures out[28..30] == [4, 0]
    ensures out[30..54] == input[30..54]
  {
    var head := input[..HeadersSize];
    assert out[0..2] == f'[0..2];
    assert input[0..2] == head[0..2] == f[0..2];
    assert out[6..10] == f'[6..10];
    assert input[6..10] == head[6..10] == f[6..10];
    var info := out[FileHeaderSize..HeadersSize];
    assert out[14..28] == info[0..14] == i'[0..14];
    assert input[14..28] == head[14..28] == i[0..14];
    SliceOfSlice(out, FileHeaderSize, HeadersSize, 14, 16);
    assert info[14..16] == i'[14..16];
    assert out[30..54] == info[16..40] == i'[16..40];
    assert input[30..54] == head[30..54] == i[16..40];
  }

  /**
   * The bfSize written into a converted stream is always smaller than the
   * stream: the palette is left out, and so is every pair beyond the
   * rounded-down row size.
   */
  lemma {:induction false} FileSizeUnderstatesOutput(input: seq<byte>)
    requires ConvertDefined(input) && Convert(input).Success?
    ensures var out := Convert(input).value;
      DecodeFileHeader(out[..FileHeaderSize]).bfSize < |out|
  {
    ConvertRewritesHeaders(input);
    ComputedSizeBelowWritten(ReadHeaders(input).value.0, ReadHeaders(input).value.1);
  }

  /**
   * Inspecting a converted stream reports the input's width and height
   * and 4 bits per pixel.
   */
  lemma {:induction false} ConvertThenInspect(input: seq<byte>)
    requires ConvertDefined(input) && Convert(input).Success?
    ensures Inspect(input).Success?
    ensures Inspect(Convert(input).value) == Success(Inspect(input).value.(bitsPerPixel := 4))
  {
    var fh, ih := ReadHeaders(input).value.0, ReadHeaders(input).value.1;
    InspectReadsHeaders(input);
    ConvertRewritesHeaders(input);
    InspectRewritten(Convert(input).value, fh, ih);
  }

  /** A stream that starts with rewritten headers is inspected as 4 bits per pixel, same size. */
  lemma InspectRewritten(out: seq<byte>, fh: FileHeader, ih: InfoHeader)
    requires DefinedFor(fh, ih) && fh.bfType == Signature
    requires |out| >= HeadersSize
    requires DecodeFileHeader(out[..FileHeaderSize]) == RewriteHeaders(fh, ih).0
    requires DecodeInfoHeader(out[FileHeaderSize..HeadersSize]) == RewriteHeaders(fh, ih).1
    ensures Inspect(out) == Success(BmpInfo(ih.biWidth, ih.biHeight, 4))
  {
    InspectReadsHeaders(out);
    RewriteHeadersFields(fh, ih);
  }

  /**
   * A width of -7..-1 with no rows: 4 * width / 32 truncates to 0 and the
   * pixel loops never run, so the conversion produces the headers and the
   * palette only, 118 bytes, and states a size of 54.
   */
  lemma {:induction false} NegativeWidthWithoutRows(input: seq<byte>)
    requires ReadHeaders(input).Success?
    requires var (fh, ih) := ReadHeaders(input).value;
      && Convertible(fh, ih) && -8 < ih.biWidth < 0 && ih.biHeight == 0
      && fh.bfOffBits + PaletteSize < 0x1_0000_0000
    ensures ConvertDefined(input) && Convert(input).Success?
    ensures |Convert(input).value| == OutputPixelsStart
    ensures DecodeFileHeader(Convert(input).value[..FileHeaderSize]).bfSize == HeadersSize
  {
    var fh, ih := ReadHeaders(input).value.0, ReadHeaders(input).value.1;
    assert PixelPairs(ih) == 0;
    HeaderFieldsAtOffsets(input);
    assert ConvertDefined(input);
    ConvertedParts(input);
    ConvertRewritesHeaders(input);
    RewrittenSizeWithoutRows(Convert(input).value, fh, ih);
  }

  /** A stream starting with headers rewritten for a row-less image states 54 bytes. */
  lemma RewrittenSizeWithoutRows(out: seq<byte>, fh: FileHeader, ih: InfoHeader)
    requires DefinedFor(fh, ih) && ih.biHeight == 0
    requires |out| >= FileHeaderSize
    requires DecodeFileHeader(out[..FileHeaderSize]) == RewriteHeaders(fh, ih).0
    ensures DecodeFileHeader(out[..FileHeaderSize]).bfSize == HeadersSize
  {
    RewriteHeadersFields(fh, ih);
  }

  /** The headers of a 2 x 1 image at 24 bits per pixel, 62 bytes in all. */
  const TwoPixelFileHeader := FileHeader(Signature, 62, 0, 0, 54)
  const TwoPixelInfoHeader := InfoHeader(40, 2, 1, 1, 24, 0, 8, 0, 0, 0, 0)

  /**
   * The 2 x 1 image: a black and a white pixel, then the two bytes that
   * pad the row to 8.
   */
  const TwoPixelBmp: seq<byte> :=
    EncodeFileHeader(TwoPixelFileHeader) + EncodeInfoHeader(TwoPixelInfoHeader)
    + [0, 0, 0, 0xFF, 0xFF, 0xFF, 0, 0]

  /** The 2 x 1 image reads back as its two headers followed by its 8 pixel bytes. */
  lemma TwoPixelHeaders()
    ensures |TwoPixelBmp| == 62
    ensures ReadHeaders(TwoPixelBmp) == Success((TwoPixelFileHeader, TwoPixelInfoHeader))
    ensures TwoPixelBmp[HeadersSize..] == [0, 0, 0, 0xFF, 0xFF, 0xFF, 0, 0]
  {
    var input, fh, ih := TwoPixelBmp, TwoPixelFileHeader, TwoPixelInfoHeader;
    assert input[..FileHeaderSize] == EncodeFileHeader(fh);
    assert input[FileHeaderSize..HeadersSize] == EncodeInfoHeader(ih);
    FileHeaderRoundTrip(fh);
    InfoHeaderRoundTrip(ih);
  }

  /**
   * Converting the 2 x 1 image succeeds with 119 bytes: 118 bytes of
   * headers and palette and one packed byte for the single pair.
   */
  lemma TwoPixelConverts()
    ensures ConvertDefined(TwoPixelBmp) && Convert(TwoPixelBmp).Success?
    ensures |Convert(TwoPixelBmp).value| == 119
  {
    TwoPixelHeaders();
    ConvertChecksInOrder(TwoPixelBmp);
  }

  /** The packed byte is 0x0F: black (index 0) in the high nibble, white (index 15) in the low one. */
  lemma TwoPixelPackedByte()
    ensures ConvertDefined(TwoPixelBmp) && Convert(TwoPixelBmp).Success?
    ensures |Convert(TwoPixelBmp).value| == 119 && Convert(TwoPixelBmp).value[118] == 0x0F
  {
    TwoPixelHeaders();
    TwoPixelConverts();
    ConvertedParts(TwoPixelBmp);
    BlackAndWhitePair(Convert(TwoPixelBmp).value, TwoPixelBmp);
  }

  /** After the palette, the pair (black, white) is packed as 0x0F. */
  lemma BlackAndWhitePair(out: seq<byte>, input: seq<byte>)
    requires |input| >= HeadersSize && input[HeadersSize..] == [0, 0, 0, 0xFF, 0xFF, 0xFF, 0, 0]
    requires |out| == OutputPixelsStart + 1 && out[OutputPixelsStart..] == PackPixels(input, 1)
    ensures out[OutputPixelsStart] == 0x0F
  {
    BlackAndWhite();
    var pair := ReadPair(input, HeadersSize);
    assert pair == [0, 0, 0, 0xFF, 0xFF, 0xFF];
    assert PackPixels(input, 1) == [PackPair(pair)];
    assert PixelAt(pair, 0) == RgbTriple(0, 0, 0);
    assert PixelAt(pair, 3) == RgbTriple(0xFF, 0xFF, 0xFF);
    assert out[OutputPixelsStart] == out[OutputPixelsStart..][0];
  }

  /**
   * The bfSize written for the 2 x 1 image is 54, not 119: the computed
   * row size of a 2-pixel row is 0.
   */
  lemma TwoPixelStatedSize()
    ensures ConvertDefined(TwoPixelBmp) && Convert(TwoPixelBmp).Success?
    ensures |Convert(TwoPixelBmp).value| == 119
    ensures DecodeFileHeader(Convert(TwoPixelBmp).value[..FileHeaderSize]).bfSize == 54
  {
    TwoPixelHeaders();
    TwoPixelConverts();
    ConvertRewritesHeaders(TwoPixelBmp);
    var headers := ReadHeaders(TwoPixelBmp).value;
    TwoPixelRewrittenSize(Convert(TwoPixelBmp).value, headers.0, headers.1);
  }

  /** A stream that starts with the rewritten headers of the 2 x 1 image states 54 bytes. */
  lemma TwoPixelRewrittenSize(out: seq<byte>, fh: FileHeader, ih: InfoHeader)
    requires fh == TwoPixelFileHeader && ih == TwoPixelInfoHeader
    requires |out| >= FileHeaderSize
    requires DefinedFor(fh, ih) && DecodeFileHeader(out[..FileHeaderSize]) == RewriteHeaders(fh, ih).0
    ensures DecodeFileHeader(out[..FileHeaderSize]).bfSize == 54
  {
    RewriteHeadersFields(fh, ih);
    assert RowSize(ih.biWidth) == 0;
  }
}
