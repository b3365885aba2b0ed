/**
 * The Netpbm loader of djvGraphics (lib/djvGraphics/PPMLoad.cpp): the header
 * classification done when a file is opened, the choice of how its image data
 * is read, and the unpacking of 1-bit raw rows into 8-bit samples.
 *
 * The file is given as its first bytes (`magic`), the header words the
 * tokenizer produces, already converted to integers (`words`), and the bytes
 * that follow the header (`body`).
 */
module Ppm {
  import opened Wrappers
  import opened Core
  import opened ImageIo

  /** djvPPM::DATA: how the samples after the header are encoded. */
  datatype Data = Ascii | Binary

  /** What opening a file derives from its magic number and header words. */
  datatype Header = Header(
    ppmType: int,
    width: int,
    height: int,
    maxValue: int,
    bitDepth: int,
    channels: int,
    data: Data)

  /** Types 1 and 4 (bitmaps) carry no maxval word. */
  predicate HasMaxValue(ppmType: int)
  {
    ppmType != 1 && ppmType != 4
  }

  function WordCount(ppmType: int): nat
  {
    if HasMaxValue(ppmType) then 3 else 2
  }

  function BitDepthFor(ppmType: int, maxValue: int): int
  {
    if ppmType == 1 || ppmType == 4 then 1
    else if maxValue < 256 then 8
    else 16
  }

  function ChannelsFor(ppmType: int): int
  {
    match ppmType
    case 1 | 2 | 4 | 5 => 1
    case 3 | 6 => 3
    case _ => 0
  }

  function DataFor(ppmType: int): Data
  {
    if ppmType == 1 || ppmType == 2 || ppmType == 3 then Ascii else Binary
  }

  /**
   * The decisions of opening a file. A file shorter than the two magic bytes,
   * or whose header ends before a word it needs, fails with the read error.
   */
  function ParseHeader(magic: seq<char>, words: seq<int>): (r: Result<Header, ErrorLabel>)
    ensures |magic| < 2 ==> r == Failure(Read)
    ensures |magic| >= 2 && magic[0] != 'P' ==> r == Failure(Unrecognized)
    ensures |magic| >= 2 && magic[0] == 'P' && !('1' <= magic[1] <= '6') ==> r == Failure(Unsupported)
    ensures |magic| >= 2 && magic[0] == 'P' && '1' <= magic[1] <= '6' ==>
      if |words| < (if magic[1] == '1' || magic[1] == '4' then 2 else 3)
      then r == Failure(Read) else r.Success?
    ensures r.Success? ==>
      && |magic| >= 2 && magic[0] == 'P' && '1' <= magic[1] <= '6'
      && r.value.ppmType == magic[1] as int - '0' as int
      && 1 <= r.value.ppmType <= 6
    ensures r.Success? ==>
      var h := r.value;
      && |words| >= 2
      && h.width == words[0]
      && h.height == words[1]
      && (h.ppmType == 1 || h.ppmType == 4 ==> h.maxValue == 0)
      && (h.ppmType != 1 && h.ppmType != 4 ==> |words| >= 3 && h.maxValue == words[2])
      && h.bitDepth == (if h.ppmType == 1 || h.ppmType == 4 then 1 else if h.maxValue < 256 then 8 else 16)
      && h.channels == (if h.ppmType == 3 || h.ppmType == 6 then 3 else 1)
      && h.data == (if h.ppmType <= 3 then Ascii else Binary)
  {
    if |magic| < 2 then Failure(Read)
    else if magic[0] != 'P' then Failure(Unrecognized)
    else if !('1' <= magic[1] <= '6') then Failure(Unsupported)
    else
      var ppmType := magic[1] as int - '0' as int;
      if |words| < WordCount(ppmType) then Failure(Read)
      else
        var maxValue := if HasMaxValue(ppmType) then words[2] else 0;
        Success(Header(
          ppmType, words[0], words[1], maxValue,
          BitDepthFor(ppmType, maxValue), ChannelsFor(ppmType), DataFor(ppmType)))
  }

  /** The three Netpbm formats of pbm(5), pgm(5) and ppm(5). */
  datatype Format = Bitmap | Graymap | Pixmap

  /** Plain files hold ASCII decimal samples, raw files hold bytes. */
  datatype Encoding = Plain | Raw

  /** The two-character magic number Netpbm assigns to each format and encoding. */
  function MagicNumber(f: Format, e: Encoding): seq<char>
  {
    var digit :=
      match (f, e)
      case (Bitmap, Plain) => '1'
      case (Graymap, Plain) => '2'
      case (Pixmap, Plain) => '3'
      case (Bitmap, Raw) => '4'
      case (Graymap, Raw) => '5'
      case (Pixmap, Raw) => '6';
    ['P', digit]
  }

  /** The header words Netpbm writes after the magic number: a bitmap has no maxval. */
  function HeaderWords(f: Format, width: int, height: int, maxValue: int): seq<int>
  {
    if f == Bitmap then [width, height] else [width, height, maxValue]
  }

  function FormatOf(ppmType: int): Format
  {
    if ppmType == 1 || ppmType == 4 then Bitmap
    else if ppmType == 2 || ppmType == 5 then Graymap
    else Pixmap
  }

  function EncodingOf(ppmType: int): Encoding
  {
    if ppmType <= 3 then Plain else Raw
  }

  /**
   * Every well-formed Netpbm header is accepted, and is classified as its
   * format says: bitmaps are 1-bit with one channel, graymaps one channel and
   * pixmaps three, 8 or 16 bits by maxval, plain files as ASCII data.
   */
  lemma ParseNetpbmHeader(f: Format, e: Encoding, width: int, height: int, maxValue: int)
    ensures var r := ParseHeader(MagicNumber(f, e), HeaderWords(f, width, height, maxValue));
      && r.Success?
      && FormatOf(r.value.ppmType) == f
      && EncodingOf(r.value.ppmType) == e
      && r.value.width == width
      && r.value.height == height
      && r.value.maxValue == (if f == Bitmap then 0 else maxValue)
      && r.value.bitDepth == (if f == Bitmap then 1 else if maxValue < 256 then 8 else 16)
      && r.value.channels == (if f == Pixmap then 3 else 1)
      && r.value.data == (if e == Plain then Ascii else Binary)
  {
  }

  /** Conversely, every header that is accepted is one of the six Netpbm magic numbers. */
  lemma ParsedHeaderIsNetpbm(magic: seq<char>, words: seq<int>)
    requires ParseHeader(magic, words).Success?
    ensures var h := ParseHeader(magic, words).value;
      && magic[..2] == MagicNumber(FormatOf(h.ppmType), EncodingOf(h.ppmType))
      && words[..WordCount(h.ppmType)] == HeaderWords(FormatOf(h.ppmType), h.width, h.height, h.maxValue)
  {
    var h := ParseHeader(magic, words).value;
    assert magic[..2] == ['P', magic[1]];
  }

  /** The bits per channel asked of the pixel-format lookup: bitmaps expand to 8 bits. */
  function LookupBits(bitDepth: int): int
  {
    if bitDepth != 1 then bitDepth else 8
  }

  /** The header information an opened file fills in before its pixel format is looked up. */
  function Described(info: ImageIOInfo, fileName: string, h: Header): ImageIOInfo
  {
    info.(fileName := fileName, size := IVec2(h.width, h.height), mirror := info.mirror.(y := true))
  }

  /** djvPPMLoad: the state the loader keeps between opening a file and reading it. */
  class PpmLoad {
    /** _bitDepth: 1, 8 or 16. */
    var bitDepth: int
    /** _data. */
    var data: Data

    constructor ()
    {
      bitDepth := 0;
      data := Ascii;
    }

    /**
     * _open: classifies the file and fills in `info` (returned as `out`).
     * `pixelSupported` stands for djvPixel::pixel, which says whether an
     * integer pixel format with that many channels and bits exists. A header
     * that fails to parse changes nothing; a failed pixel lookup fails with the
     * unsupported error after the name, size, mirror and bit depth are set.
     * Binary files are big-endian; ASCII files keep the endianness they had.
     */
    method Open(
      fileName: string, magic: seq<char>, words: seq<int>,
      info: ImageIOInfo, pixelSupported: (int, int) -> bool)
      returns (out: ImageIOInfo, err: Option<ErrorLabel>)
      modifies this
      ensures ParseHeader(magic, words).Failure? ==>
        && err == Some(ParseHeader(magic, words).error)
        && out == info
        && bitDepth == old(bitDepth) && data == old(data)
      ensures ParseHeader(magic, words).Success? ==>
        var h := ParseHeader(magic, words).value;
        && bitDepth == h.bitDepth
        && (err == None <==> pixelSupported(h.channels, LookupBits(h.bitDepth)))
        && (err != None ==>
              && err == Some(Unsupported)
              && out == Described(info, fileName, h)
              && data == old(data))
        && (err == None ==>
              && data == h.data
              && out == Described(info, fileName, h).(
                   pixel := Some(Pixel(h.channels, LookupBits(h.bitDepth))),
                   endian := if h.data == Binary then Some(MSB) else info.endian))
    {
      var parsed := ParseHeader(magic, words);
      if parsed.Failure? {
        return info, Some(parsed.error);
      }
      var h := parsed.value;
      out := info.(fileName := fileName);
      out := out.(size := IVec2(h.width, h.height));
      out := out.(mirror := out.mirror.(y := true));
      bitDepth := h.bitDepth;
      var bits := if bitDepth != 1 then bitDepth else 8;
      if !pixelSupported(h.channels, bits) {
        return out, Some(Unsupported);
      }
      out := out.(pixel := Some(Pixel(h.channels, bits)));
      data := h.data;
      if data == Binary {
        out := out.(endian := Some(MSB));
      }
      err := None;
    }
  }

  /** The frame whose file is read: the requested one, or the sequence start when -1 asks for none. */
  function FrameToRead(frame: int, sequenceStart: int): (r: int)
    ensures frame != -1 ==> r == frame
    ensures frame == -1 ==> r == sequenceStart
  {
    if frame != -1 then frame else sequenceStart
  }

  /** The three ways of reading the image data. */
  datatype ReadPath = Mapped | UnpackBits | AsciiSamples

  function ReadPathFor(data: Data, bitDepth: int): ReadPath
  {
    if data == Binary && bitDepth != 1 then Mapped
    else if data == Binary && bitDepth == 1 then UnpackBits
    else AsciiSamples
  }

  /**
   * Raw graymaps and pixmaps are mapped directly, raw bitmaps are unpacked
   * bit by bit, and every plain file is read as ASCII samples.
   */
  lemma ReadPathByType(magic: seq<char>, words: seq<int>)
    requires ParseHeader(magic, words).Success?
    ensures var h := ParseHeader(magic, words).value;
      ReadPathFor(h.data, h.bitDepth) ==
        if h.ppmType == 4 then UnpackBits
        else if h.ppmType >= 5 then Mapped
        else AsciiSamples
  {
  }

  /** Mapped data must have at least the image's byte count left in the file. */
  function CheckMappedSize(remaining: int, dataByteCount: int): (r: Option<ErrorLabel>)
    ensures r == None <==> remaining >= dataByteCount
    ensures r != None ==> r == Some(Read)
  {
    if remaining < dataByteCount then Some(Read) else None
  }

  /**
   * One 1-bit sample: bit 7 - k of the byte, counting from the least
   * significant, becomes 0 when it is set and 255 when it is clear.
   */
  function OneBitSample(b: bv8, k: nat): (r: bv8)
    requires k < 8
  {
    if (b >> (7 - k)) & 1 != 0 then 0 else 255
  }

  function ScanlineSample(scanline: seq<bv8>, i: nat): bv8
    requires i / 8 < |scanline|
  {
    OneBitSample(scanline[i / 8], i % 8)
  }

  /** The first `width` samples a scanline unpacks to. */
  function UnpackedRow(scanline: seq<bv8>, width: nat): (r: seq<bv8>)
    requires width <= 8 * |scanline|
    ensures |r| == width
    ensures forall i :: 0 <= i < width ==> r[i] == ScanlineSample(scanline, i)
  {
    seq(width, i requires 0 <= i < width => ScanlineSample(scanline, i))
  }

  /** Every unpacked sample is black (0) or white (255). */
  lemma UnpackedRowIsBinary(scanline: seq<bv8>, width: nat, i: nat)
    requires width <= 8 * |scanline| && i < width
    ensures UnpackedRow(scanline, width)[i] == 0 || UnpackedRow(scanline, width)[i] == 255
    ensures UnpackedRow(scanline, width)[i] == 0 <==> (scanline[i / 8] >> (7 - i % 8)) & 1 == 1
  {
  }

  function Scanline(body: seq<bv8>, y: nat, scanlineBytes: nat): seq<bv8>
    requires (y + 1) * scanlineBytes <= |body|
  {
    body[y * scanlineBytes..y * scanlineBytes + scanlineBytes]
  }

  lemma MulMono(a: nat, b: nat, c: nat)
    requires a <= b
    ensures a * c <= b * c
  {
  }

  /** The first `rows` rows of a raw bitmap, each unpacked to `width` samples. */
  function UnpackedImage(body: seq<bv8>, width: nat, rows: nat, scanlineBytes: nat): seq<bv8>
    requires width <= 8 * scanlineBytes
    requires rows * scanlineBytes <= |body|
  {
    if rows == 0 then []
    else
      MulMono(rows - 1, rows, scanlineBytes);
      UnpackedImage(body, width, rows - 1, scanlineBytes)
        + UnpackedRow(Scanline(body, rows - 1, scanlineBytes), width)
  }

  /**
   * Sample i of row y of the unpacked image comes from bit 7 - i mod 8 of
   * byte i / 8 of that row's scanline.
   */
  lemma {:induction false} UnpackedImageSample(
    body: seq<bv8>, width: nat, rows: nat, scanlineBytes: nat, y: nat, i: nat)
    requires width <= 8 * scanlineBytes
    requires rows * scanlineBytes <= |body|
    requires y < rows && i < width
    ensures |UnpackedImage(body, width, rows, scanlineBytes)| == rows * width
    ensures y * width + i < rows * width
    ensures y * scanlineBytes + i / 8 < |body|
    ensures UnpackedImage(body, width, rows, scanlineBytes)[y * width + i]
         == OneBitSample(body[y * scanlineBytes + i / 8], i % 8)
  {
    UnpackedImageLength(body, width, rows, scanlineBytes);
    MulMono(rows - 1, rows, scanlineBytes);
    UnpackedImageLength(body, width, rows - 1, scanlineBytes);
    var prefix := UnpackedImage(body, width, rows - 1, scanlineBytes);
    var row := UnpackedRow(Scanline(body, rows - 1, scanlineBytes), width);
    assert UnpackedImage(body, width, rows, scanlineBytes) == prefix + row;
    MulMono(y + 1, rows, scanlineBytes);
    assert (y + 1) * scanlineBytes == y * scanlineBytes + scanlineBytes;
    MulMono(y + 1, rows, width);
    assert (y + 1) * width == y * width + width;
    assert i / 8 < scanlineBytes;
    if y == rows - 1 {
      assert y * width + i == |prefix| + i;
      assert row[i] == ScanlineSample(Scanline(body, y, scanlineBytes), i);
      assert Scanline(body, y, scanlineBytes)[i / 8] == body[y * scanlineBytes + i / 8];
    } else {
      UnpackedImageSample(body, width, rows - 1, scanlineBytes, y, i);
      MulMono(y + 1, rows - 1, width);
      assert (y + 1) * width == y * width + width;
      assert y * width + i < |prefix|;
    }
  }

  lemma {:induction false} UnpackedImageLength(body: seq<bv8>, width: nat, rows: nat, scanlineBytes: nat)
    requires width <= 8 * scanlineBytes
    requires rows * scanlineBytes <= |body|
    ensures |UnpackedImage(body, width, rows, scanlineBytes)| == rows * width
  {
    if rows > 0 {
      MulMono(rows - 1, rows, scanlineBytes);
      UnpackedImageLength(body, width, rows - 1, scanlineBytes);
    }
  }

  /**
   * The inner loop of read for a raw bitmap: writes the `width` samples of one
   * scanline at `offset`, from the last sample back to the first.
   */
  method UnpackRow(scanline: seq<bv8>, width: nat, out: array<bv8>, offset: nat)
    requires width <= 8 * |scanline|
    requires offset + width <= out.Length
    modifies out
    ensures out[..] == old(out[..offset]) + UnpackedRow(scanline, width) + old(out[offset + width..])
  {
    var i: int := width - 1;
    while i >= 0
      invariant -1 <= i < width
      invariant forall j :: i < j < width ==> out[offset + j] == ScanlineSample(scanline, j)
      invariant forall k :: 0 <= k < out.Length && !(offset + i < k < offset + width) ==> out[k] == old(out[k])
    {
      out[offset + i] := if (scanline[i / 8] >> (7 - i % 8)) & 1 != 0 then 0 else 255;
      i := i - 1;
    }
    assert out[..] == old(out[..offset]) + UnpackedRow(scanline, width) + old(out[offset + width..]);
  }

  /**
   * The 1-bit branch of read for a raw bitmap: `height` scanlines of
   * `scanlineBytes` bytes each are taken from `body` and unpacked into rows of
   * `width` samples. A scanline that is cut short fails with the read error,
   * leaving the rows before it unpacked and the rest untouched.
   */
  method UnpackOneBit(
    body: seq<bv8>, width: nat, height: nat, scanlineBytes: nat, out: array<bv8>)
    returns (err: Option<ErrorLabel>)
    requires width <= 8 * scanlineBytes
    requires out.Length == height * width
    modifies out
    ensures err == None <==> height * scanlineBytes <= |body|
    ensures err != None ==> err == Some(Read)
    ensures var rows := RowsRead(|body|, height, scanlineBytes);
      && rows * scanlineBytes <= |body|
      && rows * width <= out.Length
      && out[..] == UnpackedImage(body, width, rows, scanlineBytes) + old(out[rows * width..])
  {
    ghost var initial := out[..];
    var y: nat := 0;
    var pos: nat := 0;
    var off: nat := 0;
    while y < height && scanlineBytes <= |body| - pos
      invariant y <= height
      invariant pos == y * scanlineBytes <= |body|
      invariant off == y * width <= out.Length
      invariant out[..] == UnpackedImage(body, width, y, scanlineBytes) + initial[off..]
      invariant y <= RowsRead(|body|, height, scanlineBytes)
    {
      ReadScanline(body, width, height, scanlineBytes, out, y, pos, off, initial);
      pos := pos + scanlineBytes;
      off := off + width;
      y := y + 1;
      RowsReadAdvances(|body|, height, scanlineBytes, y);
    }
    if y < height {
      RowsReadStopsAt(|body|, height, scanlineBytes, y);
      err := Some(Read);
    } else {
      RowsReadComplete(|body|, height, scanlineBytes);
      err := None;
    }
  }

  /**
   * One pass of the row loop: the scanline of row y, which starts at `pos` in
   * the body, is unpacked into the buffer at `off`.
   */
  method ReadScanline(
    body: seq<bv8>, width: nat, height: nat, scanlineBytes: nat, out: array<bv8>,
    y: nat, pos: nat, off: nat, ghost initial: seq<bv8>)
    requires width <= 8 * scanlineBytes
    requires y < height && pos == y * scanlineBytes && pos + scanlineBytes <= |body|
    requires off == y * width && out.Length == height * width && |initial| == out.Length
    requires out[..] == UnpackedImage(body, width, y, scanlineBytes) + initial[off..]
    modifies out
    ensures (y + 1) * scanlineBytes == pos + scanlineBytes
    ensures (y + 1) * width == off + width <= out.Length
    ensures out[..] == UnpackedImage(body, width, y + 1, scanlineBytes) + initial[off + width..]
  {
    NextRowFits(y, height, width, scanlineBytes, |body|);
    UnpackedImageLength(body, width, y, scanlineBytes);
    var scanline := body[pos..pos + scanlineBytes];
    ghost var before := out[..];
    UnpackRow(scanline, width, out, off);
    ghost var prefix := UnpackedImage(body, width, y, scanlineBytes);
    ghost var row := UnpackedRow(scanline, width);
    UnpackedImageStep(body, width, y, scanlineBytes);
    assert UnpackedImage(body, width, y + 1, scanlineBytes) == prefix + row;
    SpliceRow(prefix, initial[off..], before, out[..], row);
    assert initial[off..][width..] == initial[off + width..];
  }

  /** Overwriting the first |row| elements of the untouched part extends the prefix by that row. */
  lemma SpliceRow(prefix: seq<bv8>, rest: seq<bv8>, before: seq<bv8>, after: seq<bv8>, row: seq<bv8>)
    requires before == prefix + rest && |row| <= |rest|
    requires after == before[..|prefix|] + row + before[|prefix| + |row|..]
    ensures after == (prefix + row) + rest[|row|..]
  {
    assert before[..|prefix|] == prefix;
    assert before[|prefix| + |row|..] == rest[|row|..];
  }

  lemma NextRowFits(y: nat, height: nat, width: nat, scanlineBytes: nat, length: nat)
    requires y < height && y * scanlineBytes + scanlineBytes <= length
    ensures (y + 1) * width == y * width + width <= height * width
    ensures (y + 1) * scanlineBytes == y * scanlineBytes + scanlineBytes
  {
    MulMono(y + 1, height, width);
  }

  lemma UnpackedImageStep(body: seq<bv8>, width: nat, y: nat, scanlineBytes: nat)
    requires width <= 8 * scanlineBytes
    requires (y + 1) * scanlineBytes <= |body|
    ensures y * scanlineBytes + scanlineBytes <= |body|
    ensures UnpackedImage(body, width, y + 1, scanlineBytes)
         == UnpackedImage(body, width, y, scanlineBytes)
          + UnpackedRow(body[y * scanlineBytes..y * scanlineBytes + scanlineBytes], width)
  {
  }

  /** How many whole scanlines a body of `length` bytes supplies, at most `height`. */
  function RowsRead(length: nat, height: nat, scanlineBytes: nat): (r: nat)
    ensures r <= height
  {
    if scanlineBytes == 0 then height
    else if length / scanlineBytes < height then length / scanlineBytes
    else height
  }

  lemma RowsReadStopsAt(length: nat, height: nat, scanlineBytes: nat, y: nat)
    requires y * scanlineBytes <= length < y * scanlineBytes + scanlineBytes
    requires y < height
    ensures RowsRead(length, height, scanlineBytes) == y
    ensures height * scanlineBytes > length
  {
    assert scanlineBytes > 0;
    LemmaDivRange(length, scanlineBytes, y);
    MulMono(y + 1, height, scanlineBytes);
  }

  lemma RowsReadAdvances(length: nat, height: nat, scanlineBytes: nat, y: nat)
    requires y <= height && y * scanlineBytes <= length
    ensures y <= RowsRead(length, height, scanlineBytes)
  {
    if scanlineBytes > 0 {
      LemmaDivLower(length, scanlineBytes, y);
    }
  }

  lemma RowsReadComplete(length: nat, height: nat, scanlineBytes: nat)
    requires height * scanlineBytes <= length
    ensures RowsRead(length, height, scanlineBytes) == height
  {
    if scanlineBytes > 0 {
      LemmaDivLower(length, scanlineBytes, height);
    }
  }

  lemma LemmaDivLower(n: nat, d: nat, q: nat)
    requires d > 0 && q * d <= n
    ensures q <= n / d
  {
    if q > n / d {
      MulMono(n / d + 1, q, d);
    }
  }

  lemma LemmaDivRange(n: nat, d: nat, q: nat)
    requires d > 0 && q * d <= n < q * d + d
    ensures n / d == q
  {
    LemmaDivLower(n, d, q);
    if n / d > q {
      MulMono(q + 1, n / d, d);
    }
  }

  /**
   * One byte of a raw bitmap row as pbm(5) packs it: up to eight pixels, the
   * first in the most significant bit, 1 for black, padded with 0 bits.
   */
  function PackByte(pixels: seq<bool>): bv8
    requires |pixels| <= 8
  {
    var b := pixels + seq(8 - |pixels|, _ => false);
    (if b[0] then 0x80 else 0) | (if b[1] then 0x40 else 0)
    | (if b[2] then 0x20 else 0) | (if b[3] then 0x10 else 0)
    | (if b[4] then 0x08 else 0) | (if b[5] then 0x04 else 0)
    | (if b[6] then 0x02 else 0) | (if b[7] then 0x01 else 0)
  }

  /** A raw bitmap row: the pixels packed eight to a byte, the last byte padded. */
  function PackRow(pixels: seq<bool>): seq<bv8>
    decreases |pixels|
  {
    if |pixels| == 0 then []
    else if |pixels| <= 8 then [PackByte(pixels)]
    else [PackByte(pixels[..8])] + PackRow(pixels[8..])
  }

  lemma PackByteSample(pixels: seq<bool>, k: nat)
    requires |pixels| <= 8 && k < |pixels|
    ensures OneBitSample(PackByte(pixels), k) == if pixels[k] then 0 else 255
  {
    var b := pixels + seq(8 - |pixels|, _ => false);
    assert b[k] == pixels[k];
  }

  lemma {:induction false} PackRowLength(pixels: seq<bool>)
    ensures |PackRow(pixels)| == (|pixels| + 7) / 8
    decreases |pixels|
  {
    if |pixels| > 8 {
      PackRowLength(pixels[8..]);
    }
  }

  /** Unpacking sample i of a packed row gives back pixel i: black as 0, white as 255. */
  lemma {:induction false} PackRowSample(pixels: seq<bool>, i: nat)
    requires i < |pixels|
    ensures i / 8 < |PackRow(pixels)|
    ensures ScanlineSample(PackRow(pixels), i) == if pixels[i] then 0 else 255
    decreases |pixels|
  {
    PackRowLength(pixels);
    if |pixels| <= 8 {
      PackByteSample(pixels, i);
    } else if i < 8 {
      PackByteSample(pixels[..8], i);
    } else {
      PackRowSample(pixels[8..], i - 8);
      assert (i - 8) / 8 == i / 8 - 1 && (i - 8) % 8 == i % 8;
    }
  }

  /** Unpacking a Netpbm raw bitmap row recovers its pixels, black as 0 and white as 255. */
  lemma UnpackPackedRow(pixels: seq<bool>)
    ensures 8 * |PackRow(pixels)| >= |pixels|
    ensures UnpackedRow(PackRow(pixels), |pixels|)
         == seq(|pixels|, i requires 0 <= i < |pixels| => if pixels[i] then 0 as bv8 else 255)
  {
    PackRowLength(pixels);
    forall i | 0 <= i < |pixels|
      ensures ScanlineSample(PackRow(pixels), i) == if pixels[i] then 0 else 255
    {
      PackRowSample(pixels, i);
    }
  }
}
