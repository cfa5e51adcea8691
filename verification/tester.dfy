/**
 * The BMP inspector: read the two headers, check the signature, and
 * report width, height and bits per pixel as they are stored, without
 * validating any of them.
 */
module Tester {
  import opened Wrappers
  import opened LittleEndian
  import opened Headers

  /** What the inspector reports. */
  datatype BmpInfo = BmpInfo(width: i32, height: i32, bitsPerPixel: u16)

  /**
   * Reject a stream without the "BM" signature, then report biWidth,
   * biHeight and biBitCount, which sit at offsets 18, 22 and 28 of the
   * stream. A stream that ends before the field being looked at is
   * ShortRead: there the program would use header bytes it never read.
   */
  function Inspect(input: seq<byte>): Result<BmpInfo, Error> {
    if |input| < 2 then Failure(ShortRead)
    else if U16At(input, 0) != Signature then Failure(NotBmpFile)
    else if |input| < DepthFieldEnd then Failure(ShortRead)
    else Success(BmpInfo(I32At(input, 18), I32At(input, 22), U16At(input, 28)))
  }

  /**
   * The inspector succeeds exactly on streams of at least 30 bytes that
   * start with "BM"; a stream of 2 bytes or more that does not is
   * reported as not BMP.
   */
  lemma {:induction false} InspectAcceptsOnlyBM(input: seq<byte>)
    ensures |input| < 2 ==> Inspect(input) == Failure(ShortRead)
    ensures |input| >= 2 && !(input[0] == 0x42 && input[1] == 0x4D) ==>
      Inspect(input) == Failure(NotBmpFile)
    ensures Inspect(input).Success? <==>
      |input| >= DepthFieldEnd && input[0] == 0x42 && input[1] == 0x4D
  {
    if |input| >= 2 {
      SignatureIsBM(input);
    }
  }

  /**
   * On a stream that holds both headers, the report is the three fields
   * of the decoded info header, once the file header carries the
   * signature.
   */
  lemma InspectReadsHeaders(input: seq<byte>)
    requires |input| >= HeadersSize
    ensures var (fh, ih) := ReadHeaders(input).value;
      Inspect(input) == if fh.bfType != Signature then Failure(NotBmpFile)
                        else Success(BmpInfo(ih.biWidth, ih.biHeight, ih.biBitCount))
  {
    HeaderFieldsAtOffsets(input);
  }

  /** Only the first 30 bytes are read: what follows them never changes the report. */
  lemma InspectIgnoresTail(a: seq<byte>, b: seq<byte>)
    requires |a| >= DepthFieldEnd && |b| >= DepthFieldEnd
    requires a[..DepthFieldEnd] == b[..DepthFieldEnd]
    ensures Inspect(a) == Inspect(b)
  {
    assert a[0] == b[0] && a[1] == b[1];
    assert forall i :: 18 <= i < DepthFieldEnd ==> a[i] == b[i];
  }

  /** The decimal digits of n, most significant first, as an output stream prints them. */
  function DecimalDigits(n: nat): string {
    if n < 10 then [DigitChar(n)]
    else DecimalDigits(n / 10) + [DigitChar(n % 10)]
  }

  function DigitChar(d: nat): char
    requires d < 10
  {
    ('0' as int + d) as char
  }

  /** A signed value as an output stream prints it: a minus sign for negatives, then the digits. */
  function DecimalString(i: int): string {
    if i < 0 then "-" + DecimalDigits(-i) else DecimalDigits(i)
  }

  predicate IsDigit(ch: char) {
    '0' <= ch <= '9'
  }

  /** The value of a string of decimal digits. */
  function DigitsValue(s: string): nat
    requires forall k :: 0 <= k < |s| ==> IsDigit(s[k])
  {
    if |s| == 0 then 0
    else
      var last := s[|s| - 1];
      assert IsDigit(last);
      10 * DigitsValue(s[..|s| - 1]) + (last as int - '0' as int)
  }

  /** A signed decimal as printed: an optional minus sign, then at least one digit. */
  predicate IsPrintedDecimal(s: string) {
    && |s| > 0
    && (s[0] == '-' || IsDigit(s[0]))
    && (s[0] == '-' ==> |s| > 1)
    && (forall k :: 1 <= k < |s| ==> IsDigit(s[k]))
  }

  /** The value of a printed signed decimal. */
  function ParseDecimal(s: string): int
    requires IsPrintedDecimal(s)
  {
    if s[0] == '-' then -(DigitsValue(s[1..]) as int) else DigitsValue(s)
  }

  /** The digits of n are decimal digits, without leading zero, and read back as n. */
  lemma {:induction false} DecimalDigitsRoundTrip(n: nat)
    ensures var s := DecimalDigits(n);
      && |s| > 0
      && (forall k :: 0 <= k < |s| ==> IsDigit(s[k]))
      && (|s| > 1 ==> s[0] != '0')
      && DigitsValue(s) == n
  {
    if n >= 10 {
      DecimalDigitsRoundTrip(n / 10);
      var s := DecimalDigits(n);
      assert s[..|s| - 1] == DecimalDigits(n / 10);
    }
  }

  /** Every value the inspector prints reads back as that value. */
  lemma DecimalRoundTrip(i: int)
    ensures IsPrintedDecimal(DecimalString(i)) && ParseDecimal(DecimalString(i)) == i
  {
    if i < 0 {
      DecimalDigitsRoundTrip(-i);
      assert DecimalString(i)[1..] == DecimalDigits(-i);
    } else {
      DecimalDigitsRoundTrip(i);
    }
  }

  /** The labels in front of the three values of the report. */
  const WidthLabel := "Width: "
  const HeightLabel := " Height: "
  const BitsLabel := "\nNumber of bits per pixel: "

  /** The two report lines: width and height, then the bit count. */
  function ReportText(info: BmpInfo): string {
    WidthLabel + DecimalString(info.width) + HeightLabel + DecimalString(info.height)
    + BitsLabel + DecimalString(info.bitsPerPixel) + "\n"
  }

  /**
   * The report reads back: after "Width: " stand the digits of the width,
   * after " Height: " those of the height, and the bit count is printed
   * just before the final newline.
   */
  lemma ReportReadsBack(info: BmpInfo, t: string, w: string, h: string, b: string)
    requires t == ReportText(info)
    requires w == DecimalString(info.width) && h == DecimalString(info.height)
    requires b == DecimalString(info.bitsPerPixel)
    ensures |t| == 7 + |w| + 9 + |h| + 27 + |b| + 1
    ensures LabelAt(t, 0, WidthLabel) && ReadsBackAt(t, 7, |w|, info.width)
    ensures LabelAt(t, 7 + |w|, HeightLabel) && ReadsBackAt(t, 16 + |w|, |h|, info.height)
    ensures LabelAt(t, 16 + |w| + |h|, BitsLabel)
    ensures t[|t| - 1] == '\n' && ReadsBackAt(t, |t| - 1 - |b|, |b|, info.bitsPerPixel)
  {
    ReportLayout(t, w, h, b);
    FieldReadsBack(t, 7, info.width);
    FieldReadsBack(t, 16 + |w|, info.height);
    FieldReadsBack(t, |t| - 1 - |b|, info.bitsPerPixel);
  }

  /** The word stands in t from position at. */
  predicate LabelAt(t: string, at: nat, word: string) {
    at + |word| <= |t| && t[at..at + |word|] == word
  }

  /** The len characters of t from position at are a printed decimal of the given value. */
  predicate ReadsBackAt(t: string, at: nat, len: nat, value: int) {
    && at + len <= |t|
    && IsPrintedDecimal(t[at..at + len])
    && ParseDecimal(t[at..at + len]) == value
  }

  /** A value printed into a text at a position reads back from there. */
  lemma FieldReadsBack(t: string, at: nat, i: int)
    requires at + |DecimalString(i)| <= |t|
    requires t[at..at + |DecimalString(i)|] == DecimalString(i)
    ensures ReadsBackAt(t, at, |DecimalString(i)|, i)
  {
    DecimalRoundTrip(i);
  }

  /** Where the labels and the three printed values sit in the report text. */
  lemma ReportLayout(t: string, w: string, h: string, b: string)
    requires t == WidthLabel + w + HeightLabel + h + BitsLabel + b + "\n"
    ensures && |t| == 7 + |w| + 9 + |h| + 27 + |b| + 1
      && LabelAt(t, 0, WidthLabel) && t[7..7 + |w|] == w
      && LabelAt(t, 7 + |w|, HeightLabel) && t[16 + |w|..16 + |w| + |h|] == h
      && LabelAt(t, 16 + |w| + |h|, BitsLabel)
      && t[|t| - 1] == '\n' && t[|t| - 1 - |b|..|t| - 1] == b
  {
    var p1 := WidthLabel + w;
    var p2 := p1 + HeightLabel;
    var p3 := p2 + h;
    var p4 := p3 + BitsLabel;
    var p5 := p4 + b;
    Appended(WidthLabel, w);
    Appended(p1, HeightLabel);
    Appended(p2, h);
    Appended(p4, b);
    // Width label and width, inside p1.
    WithinPrefix(p1, HeightLabel, 0, 7);
    WithinPrefix(p1, HeightLabel, 7, 7 + |w|);
    WithinPrefix(p2, h, 0, 7 + |w|);
    WithinPrefix(p3, BitsLabel, 0, 7 + |w|);
    WithinPrefix(p4, b, 0, 7 + |w|);
    WithinPrefix(p5, "\n", 0, 7 + |w|);
    WithinPrefix(p2, h, 7, 7 + |w|);
    WithinPrefix(p3, BitsLabel, 7, 7 + |w|);
    WithinPrefix(p4, b, 7, 7 + |w|);
    WithinPrefix(p5, "\n", 7, 7 + |w|);
    // Height label, inside p2, and height, inside p3.
    WithinPrefix(p2, h, 7 + |w|, 16 + |w|);
    WithinPrefix(p3, BitsLabel, 7 + |w|, 16 + |w|);
    WithinPrefix(p4, b, 7 + |w|, 16 + |w|);
    WithinPrefix(p5, "\n", 7 + |w|, 16 + |w|);
    WithinPrefix(p3, BitsLabel, 16 + |w|, 16 + |w| + |h|);
    WithinPrefix(p4, b, 16 + |w|, 16 + |w| + |h|);
    WithinPrefix(p5, "\n", 16 + |w|, 16 + |w| + |h|);
    // Bit count, inside p5.
    WithinPrefix(p5, "\n", |p4|, |p5|);
  }

  /** In a concatenation the first part is the prefix and the second follows it. */
  lemma Appended(x: string, y: string)
    ensures (x + y)[..|x|] == x && (x + y)[|x|..|x| + |y|] == y
  {
  }

  /** A slice within the first part of a concatenation is a slice of that part. */
  lemma WithinPrefix(x: string, y: string, from: nat, to: nat)
    requires from <= to <= |x|
    ensures (x + y)[from..to] == x[from..to]
  {
  }
}
