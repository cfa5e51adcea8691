# BMP 24-bit to 4-bit converter, modelled in Dafny

This project models the two programs of the `bmp` repository.

- The converter (`convert_bmp_24_to_4_depth`). It reads the 14-byte
  BITMAPFILEHEADER and the 40-byte BITMAPINFOHEADER of a 24-bit bitmap. It
  rejects a stream without the "BM" signature, then one that is not 24 bits
  per pixel. It rewrites three header fields (`bfSize`, `bfOffBits`,
  `biBitCount`) and writes both headers and a fixed 16-entry palette. It then
  packs the pixels two per byte. Each pixel becomes the index of the nearest
  palette colour, the first pixel in the high nibble and the second in the
  low one.
- The inspector. It reads the same two headers, checks the signature and
  reports width, height and bits per pixel as stored.

Files and modules:

- `wrappers.dfy` (`Wrappers`): the `Result` type.
- `little_endian.dfy` (`LittleEndian`): WORD, DWORD and LONG fields and
  their little-endian bytes.
- `headers.dfy` (`Headers`): both header records, their encoders and
  decoders, and the one-shot read of both headers from a stream.
- `quantizer.dfy` (`Quantizer`): the palette and the nearest-colour search.
- `converter.dfy` (`Converter`): the conversion in two forms.
  - `Convert` is a function of the input bytes. It is the specification.
  - `ConvertBmp` is the step-by-step procedure. It updates the headers in
    place (`UpdateHeaders`) and runs the row and column loops over an input
    cursor (`PackRows`). It is proved to return exactly `Convert(input)`.
- `tester.dfy` (`Tester`): the inspector and the text it prints.
- `conversion_properties.dfy` (`ConversionProperties`): what a conversion
  produces, seen from outside. This covers the order of the checks, the
  output layout, which header bytes change and which are kept, what the
  inspector reports about a converted stream, and the 2 x 1 black and white
  example.

Files are byte sequences. Opening and reading a file becomes a
`seq<byte>` parameter, and writing one becomes the returned `seq<byte>`.

Where the code departs from a correct 4-bit BMP, the model follows the code.

- Row size. A 4-bit BMP row is 4 * ceil(width / 8) bytes, and the
  `std::ceil` at bmp_converter.cpp:118 shows that rounding up was meant.
  The integer division of 4 * width by 32 happens before the ceiling, so
  the row size is rounded down (`RowSize`). `PaddedRowSize` is the padded
  value. `RowSizeVsPadded` proves the two agree exactly when the width is
  a multiple of 8.
- File size. `bfSize` should cover the whole file, palette included. The
  code computes row size * height + 54, without the 64 palette bytes, in
  32-bit unsigned arithmetic. `FileSizeUnderstatesOutput` proves the
  stated size is always smaller than the stream written.
- Pixel reading. 24-bit rows are padded to a DWORD, and so are 4-bit rows.
  The code reads the pixel area as a flat run of 6-byte pairs from byte 54
  on, height * ceil(width / 2) of them. It skips no input row padding and
  adds no output row padding. For an odd width the last pair of a row
  also takes the 3 bytes after the row's last pixel. In a padded file
  these start with the row padding, and every later pair is out of step
  with the stored rows. `bfOffBits` of the input is not used
  to locate the pixels. Each pair is read into a value-initialized
  `std::pair`, so bytes missing at the end of the input read as 0: a
  pixel area shorter than the loops read is no error, and every pair past
  the end is packed as 0x00.
- Image size. `biSizeImage` is copied unchanged.

## Model

| member | source | states |
|---|---|---|
| LittleEndian.U16At | bmp_converter.cpp:70-73 | a WORD read from two bytes, low byte first; see U16Bytes and U16BytesOfU16At |
| LittleEndian.U32At | bmp_converter.cpp:70-73 | a DWORD read from four bytes, low byte first; see U32Bytes and U32BytesOfU32At |
| LittleEndian.I32At | bmp_converter.cpp:70-73 | a LONG read from four bytes in two's complement; see I32Bytes and I32BytesOfI32At |
| LittleEndian.U16Bytes | bmp_converter.cpp:124-125 | a WORD is written as two bytes that read back as the same WORD |
| LittleEndian.U32Bytes | bmp_converter.cpp:124-125 | a DWORD is written as four bytes that read back as the same DWORD |
| LittleEndian.I32Bytes | bmp_converter.cpp:124-125 | a signed LONG is written as four two's-complement bytes that read back as the same LONG |
| LittleEndian.U16BytesOfU16At | bmp_converter.cpp:70-73 | reading a WORD from two bytes and writing it back gives the same bytes |
| LittleEndian.U32BytesOfU32At | bmp_converter.cpp:70-73 | reading a DWORD from four bytes and writing it back gives the same bytes |
| LittleEndian.I32BytesOfI32At | bmp_converter.cpp:70-73 | reading a LONG from four bytes and writing it back gives the same bytes |
| Headers.DecodeFileHeader | bmp_converter.cpp:70-71 | the five file header fields at offsets 0, 2, 6, 8 and 10; see FileHeaderRoundTrip and FileHeaderBytesRoundTrip |
| Headers.DecodeInfoHeader | bmp_converter.cpp:72-73 | the eleven info header fields at their offsets; see InfoHeaderRoundTrip and InfoHeaderBytesRoundTrip |
| Headers.EncodeFileHeader | bmp_converter.cpp:124 | the file header is written as exactly 14 bytes |
| Headers.EncodeInfoHeader | bmp_converter.cpp:125 | the info header is written as exactly 40 bytes |
| Headers.FileHeaderRoundTrip | bmp_converter.cpp:70-71 | writing a file header and reading it back gives every field unchanged |
| Headers.FileHeaderBytesRoundTrip | bmp_converter.cpp:70-71 | any 14 bytes read as a file header are written back as the same 14 bytes |
| Headers.InfoHeaderRoundTrip | bmp_converter.cpp:72-73 | writing an info header and reading it back gives every field unchanged |
| Headers.InfoHeaderBytesRoundTrip | bmp_converter.cpp:72-73 | any 40 bytes read as an info header are written back as the same 40 bytes |
| Headers.ReadHeaders | bmp_converter.cpp:69-73 | reading the headers fails exactly on a stream shorter than 54 bytes, with ShortRead; on success the two headers re-encode to the first 54 bytes |
| Headers.SignatureIsBM | bmp_converter.cpp:75-79 | the WORD at the start of a stream of 2 bytes or more equals 0x4D42 exactly when the stream starts with the bytes 0x42 0x4D ("BM") |
| Headers.HeaderFieldsAtOffsets | bmp_converter.cpp:69-85 | bfType, biWidth, biHeight and biBitCount read through the headers are the words at stream offsets 0, 18, 22 and 28 |
| Quantizer.Palette | bmp_converter.cpp:96-114 | the 16 palette entries in index order; see PaletteColorsDistinct, BlackAndWhite and PaletteWrittenVerbatim |
| Quantizer.SquaredDistance | bmp_converter.cpp:42-46 | the squared colour distance, ordered as the source's distance; see SquaredDistanceZero and ClosestColorIsFirstMinimum |
| Quantizer.SquaredDistanceZero | bmp_converter.cpp:42-46 | the colour distance is zero exactly when the palette entry has the pixel's colour |
| Quantizer.FindClosestColor | bmp_converter.cpp:48-55 | the chosen index lies inside the palette, and is 0 for an empty palette |
| Quantizer.ClosestColorIsFirstMinimum | bmp_converter.cpp:48-55 | the chosen entry is no farther than any entry and strictly closer than every entry before it |
| Quantizer.ClosestColorIsNibble | bmp_converter.cpp:53-54 | with the 16-entry palette every chosen index is below 16, so its cast to a byte keeps it |
| Quantizer.PaletteColorsDistinct | bmp_converter.cpp:96-114 | the palette has 16 entries and no two share a colour |
| Quantizer.ExactColorMapsToItsIndex | bmp_converter.cpp:48-55 | a pixel whose colour is palette entry i is mapped to i |
| Quantizer.BlackAndWhite | bmp_converter.cpp:98-113 | black is mapped to index 0 and white to index 15 |
| Quantizer.StrictlyClosestWins | bmp_converter.cpp:48-55 | an entry strictly closer than all others is the one chosen |
| Quantizer.TieGoesToLowerIndex | bmp_converter.cpp:50-54 | of two equally close entries the later one is never chosen |
| Converter.EncodePalette | bmp_converter.cpp:126 | the palette is written as 4 bytes per entry |
| Converter.EncodePaletteAt | bmp_converter.cpp:126 | entry i is written at bytes 4i to 4i+3 as blue, green, red, reserved |
| Converter.RowSize | bmp_converter.cpp:117-119 | the row size as computed, rounded down; see RowSizeVsPadded and SizeBelowWritten |
| Converter.RowSizeVsPadded | bmp_converter.cpp:117-119 | the computed row size never exceeds 4 * ceil(width / 8) and equals it exactly when the width is a multiple of 8; the padded size is a whole number of DWORDs with a nibble for every pixel |
| Converter.RewriteHeaders | bmp_converter.cpp:117-123 | the three header updates; see RewriteHeadersFields, UpdateHeaders and RewrittenHeaderBytes |
| Converter.RewriteHeadersFields | bmp_converter.cpp:117-123 | bfSize becomes (row size * height + 54) mod 2^32, bfOffBits grows by 64, biBitCount becomes 4, and every other field is kept |
| Converter.ComputedSizeBelowWritten | bmp_converter.cpp:117-121 | the computed row size is at most the pairs written per row, and the rewritten bfSize is below the length of the output |
| Converter.SizeBelowWritten | bmp_converter.cpp:117-121 | for every width below 2^29 and every height the size formula stays below 118 + height * ceil(width / 2) |
| Converter.PackPair | bmp_converter.cpp:132-135 | one pair of pixels packed into a byte; see PackPairNibbles |
| Converter.PairCount | bmp_converter.cpp:128-129 | how often the loops read a pair, height * ceil(width / 2); see PackRows |
| Converter.PackPixels | bmp_converter.cpp:128-137 | n pairs of pixels give exactly n packed bytes |
| Converter.ByteAt | bmp_converter.cpp:130-131 | byte i of the stream as the pixel loop sees it, 0 past the end; see ReadPairInside and ReadPairPastEnd |
| Converter.ReadPair | bmp_converter.cpp:130-131 | the 6 bytes one read leaves in the value-initialized pair; see ReadPairInside and ReadPairPastEnd |
| Converter.PackPixelsAt | bmp_converter.cpp:128-137 | packed byte k comes from the pair read at 54 + 6k |
| Converter.ReadPairInside | bmp_converter.cpp:130-131 | where the input holds all 6 bytes, a pair read is exactly those bytes |
| Converter.ReadPairPastEnd | bmp_converter.cpp:130-131 | a pair read at or past the end of the input is six zero bytes, as the value-initialized pair keeps them |
| Converter.PackPixelsNext | bmp_converter.cpp:131-136 | packing one more pair appends the byte of the pair read where the previous ones end |
| Converter.Convert | bmp_converter.cpp:60-139 | on success the headers passed both checks, the conversion was defined, and the output has 118 + height * ceil(width / 2) bytes, however short the pixel area |
| Converter.ConvertBmp | bmp_converter.cpp:60-139 | the step-by-step converter returns exactly what Convert specifies, the error cases included |
| Converter.UpdateHeaders | bmp_converter.cpp:116-123 | the in-place field updates produce the rewritten headers |
| Converter.PackRows | bmp_converter.cpp:128-138 | the row and column loops read height * ceil(width / 2) consecutive 6-byte pairs from byte 54 and emit their packed bytes in order, reading bytes past the end of the input as 0 |
| Tester.Inspect | bmp_file_tester.cpp:36-53 | the inspector; see InspectAcceptsOnlyBM, InspectReadsHeaders and InspectIgnoresTail |
| Tester.InspectAcceptsOnlyBM | bmp_file_tester.cpp:36-47 | a stream of 2 bytes or more that does not start with "BM" is not BMP; the inspector succeeds exactly on streams of at least 30 bytes that start with "BM" |
| Tester.InspectReadsHeaders | bmp_file_tester.cpp:36-53 | on a stream holding both headers, the report is NotBmpFile without the signature and otherwise the decoded width, height and bit count |
| Tester.InspectIgnoresTail | bmp_file_tester.cpp:36-53 | bytes after the first 30 never change the report |
| Tester.DecimalDigits | bmp_file_tester.cpp:52-53 | the digits an output stream prints for a non-negative value; see DecimalDigitsRoundTrip |
| Tester.DecimalString | bmp_file_tester.cpp:52-53 | a signed LONG or WORD as an output stream prints it; see DecimalRoundTrip |
| Tester.DecimalDigitsRoundTrip | bmp_file_tester.cpp:52-53 | a number prints as decimal digits without a leading zero that read back as the number |
| Tester.DecimalRoundTrip | bmp_file_tester.cpp:52-53 | every printed signed value is a well-formed decimal that reads back as that value |
| Tester.ReportText | bmp_file_tester.cpp:52-53 | the two printed report lines; see ReportReadsBack |
| Tester.ReportReadsBack | bmp_file_tester.cpp:52-53 | the report holds "Width: ", " Height: " and "\nNumber of bits per pixel: " at their places and ends with a newline, and width, height and bit count each read back from their place in it |
| Tester.ReportLayout | bmp_file_tester.cpp:52-53 | where the three labels and the three printed values sit in the report, and its length |
| Tester.FieldReadsBack | bmp_file_tester.cpp:52-53 | a value printed at some position of a text reads back from that position |
| ConversionProperties.PackPairNibbles | bmp_converter.cpp:132-135 | the high nibble of a packed byte is the first pixel's index and the low nibble the second's |
| ConversionProperties.ConvertChecksInOrder | bmp_converter.cpp:69-85 | a stream not starting with "BM" gives NotBmpFile, then a depth other than 24 at bytes 28-29 gives NotTwentyFourBitsPerPixel; a stream too short for the field a check compares, or one that passes both checks with fewer than 54 bytes, gives ShortRead; the conversion succeeds exactly when the stream holds both headers and passes both checks |
| ConversionProperties.ConvertOutputLayout | bmp_converter.cpp:124-137 | the output is 118 bytes of headers and palette, the palette verbatim at 54, then one byte per pair whose nibbles are the indices of that pair's two pixels, bytes past the end of the input read as 0 (PairsPackedAfterPalette) |
| ConversionProperties.ConvertPacksMissingPairsAsBlack | bmp_converter.cpp:128-136 | every pair that starts at or past the end of the input is packed as 0x00 |
| ConversionProperties.PackedAfterPalette | bmp_converter.cpp:128-136 | when the bytes after the palette are the packed pairs, each holds the indices of its pair's two pixels |
| ConversionProperties.OutputByteNibbles | bmp_converter.cpp:128-136 | byte 118 + k of the output holds the indices of the pixels at 54 + 6k and 54 + 6k + 3, bytes past the end read as 0 |
| ConversionProperties.PackedByteNibbles | bmp_converter.cpp:128-136 | packed byte k holds the indices of the pixels at 54 + 6k and 54 + 6k + 3, bytes past the end read as 0 |
| ConversionProperties.ConvertedParts | bmp_converter.cpp:124-137 | the output is the rewritten file header, the rewritten info header, the palette and the packed pixels, each at its offset |
| ConversionProperties.PaletteWrittenVerbatim | bmp_converter.cpp:126 | palette entry i appears at 54 + 4i as blue, green, red, reserved |
| ConversionProperties.PaletteEntryInStream | bmp_converter.cpp:126 | in a stream holding an encoded palette from byte 54, entry i is at 54 + 4i |
| ConversionProperties.RewrittenHeaderBytes | bmp_converter.cpp:120-125 | after the rewrite the signature, reserved words and every info header byte but the depth are unchanged, and the depth is written 4, 0 |
| ConversionProperties.FileHeaderKeptBytes | bmp_converter.cpp:121-124 | file headers that agree on signature and reserved words agree on those bytes |
| ConversionProperties.InfoHeaderKeptBytes | bmp_converter.cpp:123-125 | info headers that differ only in the depth agree on every other byte |
| ConversionProperties.ConvertRewritesHeaders | bmp_converter.cpp:116-125 | the headers of the output read back as the rewritten headers of the input |
| ConversionProperties.ConvertKeepsHeaderBytes | bmp_converter.cpp:116-125 | the output keeps input bytes 0-1, 6-9, 14-27 and 30-53, and bytes 28-29 become 4, 0 |
| ConversionProperties.HeaderSlices | bmp_converter.cpp:124-125 | the byte ranges kept by the rewrite carry over from the input stream to the output stream |
| ConversionProperties.FileSizeUnderstatesOutput | bmp_converter.cpp:117-121 | the bfSize written into the output is always smaller than the output |
| ConversionProperties.ConvertThenInspect | bmp_converter.cpp:116-125 | inspecting the output reports the input's width and height and 4 bits per pixel |
| ConversionProperties.InspectRewritten | bmp_file_tester.cpp:43-53 | a stream starting with rewritten headers is reported with the original size and 4 bits per pixel |
| ConversionProperties.NegativeWidthWithoutRows | bmp_converter.cpp:117-129 | a width of -7..-1 with height 0 converts to the 118 bytes of headers and palette, stating a size of 54 |
| ConversionProperties.RewrittenSizeWithoutRows | bmp_converter.cpp:117-121 | the rewritten header of an image without rows states 54 bytes |
| ConversionProperties.TwoPixelHeaders | bmp_converter.cpp:70-73 | the 2 x 1 example reads back as its two headers followed by its 8 pixel bytes |
| ConversionProperties.TwoPixelConverts | bmp_converter.cpp:60-139 | the 2 x 1 example converts to 119 bytes |
| ConversionProperties.TwoPixelPackedByte | bmp_converter.cpp:128-137 | the single packed byte of the black and white example is 0x0F |
| ConversionProperties.BlackAndWhitePair | bmp_converter.cpp:132-135 | the pair (black, white) is packed as 0x0F |
| ConversionProperties.TwoPixelStatedSize | bmp_converter.cpp:117-121 | the 2 x 1 example is stated as 54 bytes long, though 119 are written |
| ConversionProperties.TwoPixelRewrittenSize | bmp_converter.cpp:117-121 | the rewritten header of the 2 x 1 example states 54 bytes |

## Left out

- File opening, file paths, the assets directory and the messages written
  to the error stream are left out. Input and output files are byte
  sequences, and each failure is an `Error` value instead of a message.
  Failing to open the input or the output file is not modelled.
- Converter.Convert: a stream shorter than 54 bytes that passes every check
  its bytes allow is `ShortRead`. The source goes on with header fields it
  never read, and their values are indeterminate. The signature check needs
  2 bytes and the depth check 30. A stream of 0 or 1 bytes, or of 2 to 29
  bytes starting with "BM", is `ShortRead` even where the bytes present
  already decide a check.
- Tester.Inspect: a stream of 0 or 1 bytes, or of 2 to 29 bytes starting
  with "BM", is `ShortRead`. Where the bytes present already decide the
  signature check, as a single byte other than 0x42 does, the source
  reports the stream as not BMP. Otherwise it prints values made partly
  of header bytes it never read.
- Floating point in the colour distance is left out. The model compares
  integer squared distances, which order the palette entries exactly as
  sqrt of the same integers does.
- The conversion is not modelled where the source's behaviour is undefined
  or unbounded; `Convert` requires `ConvertDefined` for this.
  - Undefined: 4 * width overflows a 32-bit int (width of 2^29 or more);
    a negative row size is cast from double to `uint32_t` (width below
    -7); the new `bfOffBits` does not fit when cast from double to DWORD.
  - Unbounded: both loops compare a `size_t` counter with a LONG bound,
    and a negative bound becomes nearly 2^64. So a negative height is
    excluded, and a negative width is excluded when the height is not 0.
    In these cases a loop runs about 2^64 times. When the width is
    positive, the column loop reads a pair on each of those iterations.
  - A width of -7..-1 with height 0 is defined and modelled:
    4 * width / 32 truncates to 0, no pair is read, and the output is the
    118 bytes of headers and palette (`NegativeWidthWithoutRows`).
- The `std::byte` cast of the found index is not modelled for palettes of
  more than 256 entries. The palette is fixed at 16 entries.
- Converter.ConvertBmp: the header update and the pixel loops are written
  as the separate methods `UpdateHeaders` and `PackRows`. The source has
  one function. Both run in the source's order.
- The inspector's printing is modelled as the text it produces
  (`ReportText`). Writing it to standard output is not modelled.
