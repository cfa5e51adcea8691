/**
 * The two fixed-size records at the start of a BMP file: the 14-byte
 * BITMAPFILEHEADER and the 40-byte BITMAPINFOHEADER of the Windows GDI.
 * The source reads and writes them as raw packed structs; here every field
 * is decoded from and encoded to its little-endian bytes explicitly.
 */
module Headers {
  import opened Wrappers
  import opened LittleEndian

  /** "BM" read as a little-endian WORD: byte 0x42 then byte 0x4D. */
  const Signature: u16 := 0x4D42

  const FileHeaderSize: nat := 14
  const InfoHeaderSize: nat := 40
  /** Size of both headers together: where the source expects the pixels. */
  const HeadersSize: nat := FileHeaderSize + InfoHeaderSize
  /** Where biBitCount, the WORD at offset 14 of the info header, ends in the stream. */
  const DepthFieldEnd: nat := FileHeaderSize + 16

  datatype FileHeader = FileHeader(
    bfType: u16,        // bytes 0..2
    bfSize: u32,        // bytes 2..6
    bfReserved1: u16,   // bytes 6..8
    bfReserved2: u16,   // bytes 8..10
    bfOffBits: u32      // bytes 10..14
  )

  datatype InfoHeader = InfoHeader(
    biSize: u32,           // bytes 0..4
    biWidth: i32,          // bytes 4..8
    biHeight: i32,         // bytes 8..12
    biPlanes: u16,         // bytes 12..14
    biBitCount: u16,       // bytes 14..16
    biCompression: u32,    // bytes 16..20
    biSizeImage: u32,      // bytes 20..24
    biXPelsPerMeter: i32,  // bytes 24..28
    biYPelsPerMeter: i32,  // bytes 28..32
    biClrUsed: u32,        // bytes 32..36
    biClrImportant: u32    // bytes 36..40
  )

  /** Why reading or converting a bitmap stops. */
  datatype Error =
    | ShortRead                   // the stream ends before a header field the program uses
    | NotBmpFile                  // the file header does not start with "BM"
    | NotTwentyFourBitsPerPixel   // the converter's input is not 24 bits per pixel

  function DecodeFileHeader(s: seq<byte>): FileHeader
    requires |s| == FileHeaderSize
  {
    FileHeader(U16At(s, 0), U32At(s, 2), U16At(s, 6), U16At(s, 8), U32At(s, 10))
  }

  function EncodeFileHeader(h: FileHeader): (s: seq<byte>)
    ensures |s| == FileHeaderSize
  {
    U16Bytes(h.bfType) + U32Bytes(h.bfSize) + U16Bytes(h.bfReserved1)
    + U16Bytes(h.bfReserved2) + U32Bytes(h.bfOffBits)
  }

  function DecodeInfoHeader(s: seq<byte>): InfoHeader
    requires |s| == InfoHeaderSize
  {
    InfoHeader(U32At(s, 0), I32At(s, 4), I32At(s, 8), U16At(s, 12), U16At(s, 14),
               U32At(s, 16), U32At(s, 20), I32At(s, 24), I32At(s, 28),
               U32At(s, 32), U32At(s, 36))
  }

  function EncodeInfoHeader(h: InfoHeader): (s: seq<byte>)
    ensures |s| == InfoHeaderSize
  {
    U32Bytes(h.biSize) + I32Bytes(h.biWidth) + I32Bytes(h.biHeight)
    + U16Bytes(h.biPlanes) + U16Bytes(h.biBitCount) + U32Bytes(h.biCompression)
    + U32Bytes(h.biSizeImage) + I32Bytes(h.biXPelsPerMeter) + I32Bytes(h.biYPelsPerMeter)
    + U32Bytes(h.biClrUsed) + U32Bytes(h.biClrImportant)
  }

  /** Writing a file header and reading it back gives the same header. */
  lemma FileHeaderRoundTrip(h: FileHeader)
    ensures DecodeFileHeader(EncodeFileHeader(h)) == h
  {
    var s := EncodeFileHeader(h);
    assert s[0..2] == U16Bytes(h.bfType);
    assert s[2..6] == U32Bytes(h.bfSize);
    assert s[6..8] == U16Bytes(h.bfReserved1);
    assert s[8..10] == U16Bytes(h.bfReserved2);
    assert s[10..14] == U32Bytes(h.bfOffBits);
  }

  /** Two adjacent slices of a sequence make up the slice that spans both. */
  lemma AdjacentSlices(s: seq<byte>, i: nat, j: nat, k: nat)
    requires i <= j <= k <= |s|
    ensures s[i..j] + s[j..k] == s[i..k]
  {
  }

  /** Reading 14 bytes as a file header and writing it back gives the same bytes. */
  lemma FileHeaderBytesRoundTrip(s: seq<byte>)
    requires |s| == FileHeaderSize
    ensures EncodeFileHeader(DecodeFileHeader(s)) == s
  {
    var h := DecodeFileHeader(s);
    U16BytesOfU16At(s, 0);
    var e := U16Bytes(h.bfType);
    assert e == s[0..2];
    U32BytesOfU32At(s, 2);
    e := e + U32Bytes(h.bfSize);
    AdjacentSlices(s, 0, 2, 6);
    U16BytesOfU16At(s, 6);
    e := e + U16Bytes(h.bfReserved1);
    AdjacentSlices(s, 0, 6, 8);
    U16BytesOfU16At(s, 8);
    e := e + U16Bytes(h.bfReserved2);
    AdjacentSlices(s, 0, 8, 10);
    U32BytesOfU32At(s, 10);
    e := e + U32Bytes(h.bfOffBits);
    AdjacentSlices(s, 0, 10, 14);
    assert e == EncodeFileHeader(h);
    assert s[0..14] == s;
  }

  /** Writing an info header and reading it back gives the same header. */
  lemma InfoHeaderRoundTrip(h: InfoHeader)
    ensures DecodeInfoHeader(EncodeInfoHeader(h)) == h
  {
    var s := EncodeInfoHeader(h);
    assert s[0..4] == U32Bytes(h.biSize);
    assert s[4..8] == I32Bytes(h.biWidth);
    assert s[8..12] == I32Bytes(h.biHeight);
    assert s[12..14] == U16Bytes(h.biPlanes);
    assert s[14..16] == U16Bytes(h.biBitCount);
    assert s[16..20] == U32Bytes(h.biCompression);
    assert s[20..24] == U32Bytes(h.biSizeImage);
    assert s[24..28] == I32Bytes(h.biXPelsPerMeter);
    assert s[28..32] == I32Bytes(h.biYPelsPerMeter);
    assert s[32..36] == U32Bytes(h.biClrUsed);
    assert s[36..40] == U32Bytes(h.biClrImportant);
  }

  /** Reading 40 bytes as an info header and writing it back gives the same bytes. */
  lemma InfoHeaderBytesRoundTrip(s: seq<byte>)
    requires |s| == InfoHeaderSize
    ensures EncodeInfoHeader(DecodeInfoHeader(s)) == s
  {
    var h := DecodeInfoHeader(s);
    U32BytesOfU32At(s, 0);
    var e := U32Bytes(h.biSize);
    assert e == s[0..4];
    I32BytesOfI32At(s, 4);
    e := e + I32Bytes(h.biWidth);
    AdjacentSlices(s, 0, 4, 8);
    I32BytesOfI32At(s, 8);
    e := e + I32Bytes(h.biHeight);
    AdjacentSlices(s, 0, 8, 12);
    U16BytesOfU16At(s, 12);
    e := e + U16Bytes(h.biPlanes);
    AdjacentSlices(s, 0, 12, 14);
    U16BytesOfU16At(s, 14);
    e := e + U16Bytes(h.biBitCount);
    AdjacentSlices(s, 0, 14, 16);
    U32BytesOfU32At(s, 16);
    e := e + U32Bytes(h.biCompression);
    AdjacentSlices(s, 0, 16, 20);
    U32BytesOfU32At(s, 20);
    e := e + U32Bytes(h.biSizeImage);
    AdjacentSlices(s, 0, 20, 24);
    I32BytesOfI32At(s, 24);
    e := e + I32Bytes(h.biXPelsPerMeter);
    AdjacentSlices(s, 0, 24, 28);
    I32BytesOfI32At(s, 28);
    e := e + I32Bytes(h.biYPelsPerMeter);
    AdjacentSlices(s, 0, 28, 32);
    U32BytesOfU32At(s, 32);
    e := e + U32Bytes(h.biClrUsed);
    AdjacentSlices(s, 0, 32, 36);
    U32BytesOfU32At(s, 36);
    e := e + U32Bytes(h.biClrImportant);
    AdjacentSlices(s, 0, 36, 40);
    assert e == EncodeInfoHeader(h);
    assert s[0..40] == s;
  }

  /**
   * The one-shot read of both headers from the start of a stream: the file
   * header from bytes 0..14, the info header from bytes 14..54. A stream
   * shorter than that is a short read.
   */
  function ReadHeaders(input: seq<byte>): (r: Result<(FileHeader, InfoHeader), Error>)
    ensures r.Failure? <==> |input| < HeadersSize
    ensures r.Failure? ==> r.error == ShortRead
    ensures r.Success? ==>
      EncodeFileHeader(r.value.0) + EncodeInfoHeader(r.value.1) == input[..HeadersSize]
  {
    if |input| < HeadersSize then
      Failure(ShortRead)
    else
      var fileBytes, infoBytes := input[..FileHeaderSize], input[FileHeaderSize..HeadersSize];
      FileHeaderBytesRoundTrip(fileBytes);
      InfoHeaderBytesRoundTrip(infoBytes);
      assert input[..HeadersSize] == fileBytes + infoBytes;
      Success((DecodeFileHeader(fileBytes), DecodeInfoHeader(infoBytes)))
  }

  /** The signature word equals 0x4D42 exactly when the stream starts with 0x42 0x4D ("BM"). */
  lemma {:induction false} SignatureIsBM(s: seq<byte>)
    requires |s| >= 2
    ensures U16At(s, 0) == Signature <==> s[0] == 0x42 && s[1] == 0x4D
  {
    var v := U16At(s, 0);
    if v == Signature {
      assert v % 0x100 == s[0] && v / 0x100 == s[1];
    }
  }

  /**
   * The fields the programs look at, read through the headers, are the
   * words at fixed offsets of the stream: bfType at 0, biWidth at 18,
   * biHeight at 22 and biBitCount at 28.
   */
  lemma HeaderFieldsAtOffsets(input: seq<byte>)
    requires |input| >= HeadersSize
    ensures var fh, ih := ReadHeaders(input).value.0, ReadHeaders(input).value.1;
      && fh.bfType == U16At(input, 0)
      && ih.biWidth == I32At(input, 18) && ih.biHeight == I32At(input, 22)
      && ih.biBitCount == U16At(input, 28)
  {
    var fileBytes, infoBytes := input[..FileHeaderSize], input[FileHeaderSize..HeadersSize];
    assert U16At(fileBytes, 0) == U16At(input, 0);
    assert I32At(infoBytes, 4) == I32At(input, 18);
    assert I32At(infoBytes, 8) == I32At(input, 22);
    assert U16At(infoBytes, 14) == U16At(input, 28);
  }
}
